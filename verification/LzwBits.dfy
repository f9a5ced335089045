/** The byte-level half of reading and writing one code: `output` cuts a code of 9 to 16 bits into
    two or three bytes and `getcode` joins them again. */
module LzwBits {
  import opened Bits
  import opened Lzw
  import opened LzwFrame

  lemma ByteSize()
    ensures Pow2(8) == 256
  {
    assert Pow2(4) == 16;
  }

  lemma BitPosition(p: nat, x: nat)
    requires x < 8
    ensures (8 * p + x) / 8 == p && (8 * p + x) % 8 == x
  {
  }

  /** First byte of a code that starts at bit r: the r bits already there, then the low bits of the code. */
  function FirstByte(prev: Byte, code: nat, r: nat): (b: Byte)
    requires r < 8
  {
    FirstByteFits(prev, code, r);
    Low(prev, r) + Low(Shl(code, r), 8)
  }

  lemma FirstByteFits(x: nat, code: nat, r: nat)
    requires r < 8
    ensures Low(x, r) + Low(Shl(code, r), 8) < 256
  {
    ByteSize();
    LowShl(code, r, 8);
    JoinBound(x, Low(code, 8 - r), r, 8 - r);
  }

  lemma FirstByteBits(prev: Byte, code: nat, r: nat, t: nat)
    requires r < 8 && t < 8
    ensures BitOf(FirstByte(prev, code, r), t) == (if t < r then BitOf(prev, t) else BitOf(code, t - r))
  {
    LowShl(code, r, 8);
    BitOfJoin(prev, Low(code, 8 - r), r, t);
    if t >= r { BitOfLow(code, 8 - r, t - r); }
  }

  /** Eight bits of a code from bit a on. */
  function MiddleByte(code: nat, a: nat): (b: Byte) {
    ByteSize();
    Low(Shr(code, a), 8)
  }

  lemma MiddleByteBits(code: nat, a: nat, t: nat)
    requires t < 8
    ensures BitOf(MiddleByte(code, a), t) == BitOf(code, a + t)
  {
    BitOfLow(Shr(code, a), 8, t);
    BitOfShr(code, a, t);
  }

  /** s with a code of n bits stored from bit 8 * p + r on, as `output` stores it. */
  function Stored(s: seq<Byte>, p: nat, r: nat, n: nat, code: nat): (s': seq<Byte>)
    requires r < 8 && 9 <= n <= 16 && 8 * p + r + n <= 8 * |s|
    ensures |s'| == |s|
  {
    var s1 := s[p := FirstByte(s[p], code, r)];
    var s2 := s1[p + 1 := MiddleByte(code, 8 - r)];
    if r + n > 16 then s2[p + 2 := MiddleByte(code, 16 - r)] else s2
  }

  /** Storing a code puts its bits in place and keeps every earlier bit. */
  lemma StoredHolds(s: seq<Byte>, p: nat, r: nat, n: nat, code: nat)
    requires r < 8 && 9 <= n <= 16 && 8 * p + r + n <= 8 * |s| && code < Pow2(n)
    ensures HoldsAt(Stored(s, p, r, n, code), 8 * p + r, n, code)
    ensures SameBits(s, Stored(s, p, r, n, code), 8 * p + r)
  {
    hide FirstByte, MiddleByte, Stored, BitOf;
    var s' := Stored(s, p, r, n, code);
    forall i | 8 * p + r <= i < 8 * p + r + n
      ensures StreamBit(s', i) == BitOf(code, i - (8 * p + r))
    {
      StoredBit(s, p, r, n, code, i - (8 * p + r));
      assert 8 * p + r + (i - (8 * p + r)) == i;
    }
    forall i | 0 <= i < 8 * p + r
      ensures StreamBit(s, i) == StreamBit(s', i)
    {
      StoredBefore(s, p, r, n, code, i);
    }
  }

  lemma StreamAt(s: seq<Byte>, p: nat, x: nat)
    requires p < |s| && x < 8
    ensures (8 * p + x) / 8 < |s| && StreamBit(s, 8 * p + x) == BitOf(s[p], x)
  {
    BitPosition(p, x);
  }

  lemma StoredBytes(s: seq<Byte>, p: nat, r: nat, n: nat, code: nat)
    requires r < 8 && 9 <= n <= 16 && 8 * p + r + n <= 8 * |s|
    ensures p + 1 < |s| && (r + n > 16 ==> p + 2 < |s|)
    ensures var s' := Stored(s, p, r, n, code);
            s'[p] == FirstByte(s[p], code, r) && s'[p + 1] == MiddleByte(code, 8 - r)
            && (r + n > 16 ==> s'[p + 2] == MiddleByte(code, 16 - r)) && forall k :: 0 <= k < p ==> s'[k] == s[k]
  {
    hide FirstByte, MiddleByte;
  }

  lemma StoredBit(s: seq<Byte>, p: nat, r: nat, n: nat, code: nat, t: nat)
    requires r < 8 && 9 <= n <= 16 && 8 * p + r + n <= 8 * |s| && t < n
    ensures StreamBit(Stored(s, p, r, n, code), 8 * p + r + t) == BitOf(code, t)
  {
    hide FirstByte, MiddleByte, Stored, BitOf, StreamBit;
    var s' := Stored(s, p, r, n, code);
    StoredBytes(s, p, r, n, code);
    if r + t < 8 {
      FirstByteBits(s[p], code, r, r + t);
      StreamAt(s', p, r + t);
    } else if r + t < 16 {
      MiddleByteBits(code, 8 - r, r + t - 8);
      StreamAt(s', p + 1, r + t - 8);
    } else {
      MiddleByteBits(code, 16 - r, r + t - 16);
      StreamAt(s', p + 2, r + t - 16);
    }
  }

  lemma StoredBefore(s: seq<Byte>, p: nat, r: nat, n: nat, code: nat, i: nat)
    requires r < 8 && 9 <= n <= 16 && 8 * p + r + n <= 8 * |s| && i < 8 * p + r
    ensures StreamBit(s, i) == StreamBit(Stored(s, p, r, n, code), i)
  {
    hide FirstByte, MiddleByte, Stored, BitOf;
    StoredBytes(s, p, r, n, code);
    if i >= 8 * p {
      FirstByteBits(s[p], code, r, i - 8 * p);
      BitPosition(p, i - 8 * p);
    }
  }

  /** The number `getcode` assembles from the bytes at bit 8 * p + r. */
  function Fetched(s: seq<Byte>, p: nat, r: nat, n: nat): nat
    requires r < 8 && 9 <= n <= 16 && 8 * p + r + n <= 8 * |s|
  {
    var bits := n - (8 - r);
    if bits >= 8 then
      Shr(s[p], r) + Shl(s[p + 1], 8 - r) + (if bits > 8 then Shl(Low(s[p + 2], bits - 8), 16 - r) else 0)
    else Shr(s[p], r) + Shl(Low(s[p + 1], bits), 8 - r)
  }

  /** The part of a code above its first byte. */
  function Tail(s: seq<Byte>, p: nat, r: nat, n: nat): nat
    requires r < 8 && 9 <= n <= 16 && 8 * p + r + n <= 8 * |s|
  {
    var bits := n - (8 - r);
    if bits >= 8 then Low(s[p + 1], 8) + Shl(if bits > 8 then Low(s[p + 2], bits - 8) else 0, 8)
    else Low(s[p + 1], bits)
  }

  lemma FetchedParts(s: seq<Byte>, p: nat, r: nat, n: nat)
    requires r < 8 && 9 <= n <= 16 && 8 * p + r + n <= 8 * |s|
    ensures Fetched(s, p, r, n) == Low(Shr(s[p], r), 8 - r) + Shl(Tail(s, p, r, n), 8 - r)
    ensures Tail(s, p, r, n) < Pow2(n - (8 - r))
  {
    hide Low, Shl, Shr, Pow2;
    ByteSize();
    ShrSmall(s[p], r, 8 - r);
    LowOfSmall(Shr(s[p], r), 8 - r);
    LowOfSmall(s[p + 1], 8);
    var bits := n - (8 - r);
    if bits >= 8 {
      var top := if bits > 8 then Low(s[p + 2], bits - 8) else 0;
      ShlAdd(s[p + 1], top, 8 - r, 8);
      ShlZero(16 - r);
      JoinBound(s[p + 1], top, 8, bits - 8);
    }
  }

  lemma {:induction false} ShlZero(a: nat)
    ensures Shl(0, a) == 0
  {
    if a > 0 { ShlZero(a - 1); }
  }

  lemma TailBits(s: seq<Byte>, p: nat, r: nat, n: nat, t: nat)
    requires r < 8 && 9 <= n <= 16 && 8 * p + r + n <= 8 * |s|
    requires t < n - (8 - r)
    ensures BitOf(Tail(s, p, r, n), t) == StreamBit(s, 8 * (p + 1) + t)
  {
    var bits := n - (8 - r);
    if bits >= 8 {
      BitOfJoin(s[p + 1], if bits > 8 then Low(s[p + 2], bits - 8) else 0, 8, t);
      if t >= 8 {
        BitOfLow(s[p + 2], bits - 8, t - 8);
        BitPosition(p + 2, t - 8);
      }
    } else {
      BitOfLow(s[p + 1], bits, t);
      BitPosition(p + 1, t);
    }
  }

  lemma FetchedBits(s: seq<Byte>, p: nat, r: nat, n: nat, t: nat)
    requires r < 8 && 9 <= n <= 16 && 8 * p + r + n <= 8 * |s|
    requires t < n
    ensures BitOf(Fetched(s, p, r, n), t) == StreamBit(s, 8 * p + r + t)
  {
    hide BitOf, Fetched, Tail, Low, Shl, Shr, Pow2;
    FetchedParts(s, p, r, n);
    BitOfJoin(Shr(s[p], r), Tail(s, p, r, n), 8 - r, t);
    if t < 8 - r {
      BitOfShr(s[p], r, t);
      BitPosition(p, r + t);
    } else {
      TailBits(s, p, r, n, t - (8 - r));
    }
  }

  lemma FetchedFits(s: seq<Byte>, p: nat, r: nat, n: nat)
    requires r < 8 && 9 <= n <= 16 && 8 * p + r + n <= 8 * |s|
    ensures Fetched(s, p, r, n) < Pow2(n)
  {
    hide Fetched, Tail, Low, Shl, Shr, Pow2;
    FetchedParts(s, p, r, n);
    JoinBound(Shr(s[p], r), Tail(s, p, r, n), 8 - r, n - (8 - r));
  }

  /** Fetching returns the code stored there. */
  lemma FetchedIsCode(s: seq<Byte>, p: nat, r: nat, n: nat, code: nat)
    requires r < 8 && 9 <= n <= 16 && 8 * p + r + n <= 8 * |s|
    requires HoldsAt(s, 8 * p + r, n, code)
    ensures Fetched(s, p, r, n) == code
  {
    var got := Fetched(s, p, r, n);
    FetchedFits(s, p, r, n);
    forall t | 0 <= t < n
      ensures BitOf(got, t) == BitOf(code, t)
    {
      FetchedBits(s, p, r, n, t);
      assert StreamBit(s, 8 * p + r + t) == BitOf(code, t);
    }
    LowFromBits(got, code, n);
    LowOfSmall(got, n);
    LowOfSmall(code, n);
  }

  // ------------------------------------------------- moving along the stream

  lemma StreamBitShift(w: seq<Byte>, s: seq<Byte>, i: nat)
    requires i < 8 * |s|
    ensures StreamBit(w + s, 8 * |w| + i) == StreamBit(s, i)
  {
    assert (8 * |w| + i) / 8 == |w| + i / 8 && (8 * |w| + i) % 8 == i % 8;
  }

  lemma HoldsShift(w: seq<Byte>, s: seq<Byte>, pos: nat, width: nat, code: nat)
    requires HoldsAt(s, pos, width, code)
    ensures HoldsAt(w + s, 8 * |w| + pos, width, code)
  {
    forall i | 8 * |w| + pos <= i < 8 * |w| + pos + width
      ensures StreamBit(w + s, i) == BitOf(code, i - (8 * |w| + pos))
    {
      StreamBitShift(w, s, i - 8 * |w|);
    }
  }

  lemma HoldsSlice(s: seq<Byte>, x: nat, y: nat, pos: nat, width: nat, code: nat)
    requires x <= y <= |s| && 8 * x <= pos && pos + width <= 8 * y
    requires HoldsAt(s, pos, width, code)
    ensures HoldsAt(s[x..y], pos - 8 * x, width, code)
  {
    forall i | pos - 8 * x <= i < pos - 8 * x + width
      ensures StreamBit(s[x..y], i) == BitOf(code, i - (pos - 8 * x))
    {
      assert StreamBit(s, 8 * x + i) == BitOf(code, 8 * x + i - pos);
      assert s[x..y][i / 8] == s[x + i / 8];
    }
  }

  lemma SameBitsShift(w: seq<Byte>, s: seq<Byte>, s': seq<Byte>, n: nat)
    requires SameBits(s, s', n)
    ensures SameBits(w + s, w + s', 8 * |w| + n)
  {
    forall i | 0 <= i < 8 * |w| + n
      ensures StreamBit(w + s, i) == StreamBit(w + s', i)
    {
      if i >= 8 * |w| {
        StreamBitShift(w, s, i - 8 * |w|);
        StreamBitShift(w, s', i - 8 * |w|);
      }
    }
  }

  /** Cutting both strings short, or extending them, does not matter before bit n. */
  lemma SameBitsPrefix(s: seq<Byte>, s': seq<Byte>, n: nat, a: nat, b: nat)
    requires SameBits(s, s', n)
    requires a <= |s| && b <= |s'| && n <= 8 * a && n <= 8 * b
    ensures SameBits(s[..a], s'[..b], n)
  {
    forall i | 0 <= i < n
      ensures StreamBit(s[..a], i) == StreamBit(s'[..b], i)
    {
      assert StreamBit(s, i) == StreamBit(s', i);
    }
  }

  lemma HoldsPrefix(s: seq<Byte>, a: nat, pos: nat, width: nat, code: nat)
    requires HoldsAt(s, pos, width, code) && a <= |s| && pos + width <= 8 * a
    ensures HoldsAt(s[..a], pos, width, code)
  {
    forall i | pos <= i < pos + width
      ensures StreamBit(s[..a], i) == BitOf(code, i - pos)
    {
      assert StreamBit(s, i) == BitOf(code, i - pos);
    }
  }

  lemma HoldsExtend(s: seq<Byte>, s': seq<Byte>, pos: nat, width: nat, code: nat)
    requires s <= s'
    requires HoldsAt(s, pos, width, code)
    ensures HoldsAt(s', pos, width, code)
  {
    forall i | pos <= i < pos + width
      ensures StreamBit(s', i) == BitOf(code, i - pos)
    {
      assert StreamBit(s, i) == BitOf(code, i - pos);
    }
  }

  /** The stream grew by a code of `width` bits at bit pos, perhaps with padding behind it. */
  ghost predicate Grown(before: seq<Byte>, after: seq<Byte>, pos: nat, width: nat, code: nat) {
    SameBits(before, after, pos) && HoldsAt(after, pos, width, code)
  }

  lemma GrownCarries(before: seq<Byte>, after: seq<Byte>, codes: seq<nat>, code: nat, maxbits: nat)
    requires 1 <= maxbits <= 16
    requires Carries(before, codes, maxbits)
    requires var f := Layout(codes, maxbits); Grown(before, after, Bit(f), f.width, code)
    ensures Carries(after, codes + [code], maxbits)
  {
    CarriesKept(before, after, codes, maxbits);
    CarriesSnoc(after, codes, code, maxbits);
  }

  /** Storing a code in the buffer, seen from the stream: `w` is on file, m bytes of the buffer `s` were
      in use, m' bytes of the changed buffer `s'` are. */
  lemma StoreGrows(w: seq<Byte>, s: seq<Byte>, s': seq<Byte>, pos: nat, m: nat, m': nat, width: nat, code: nat)
    requires m <= |s| && pos <= 8 * m && m' <= |s'| && pos + width <= 8 * m'
    requires SameBits(s, s', pos) && HoldsAt(s', pos, width, code)
    ensures Grown(w + s[..m], w + s'[..m'], 8 * |w| + pos, width, code)
  {
    SameBitsPrefix(s, s', pos, m, m');
    SameBitsShift(w, s[..m], s'[..m'], pos);
    HoldsPrefix(s', m', pos, width, code);
    HoldsShift(w, s'[..m'], pos, width, code);
  }

  lemma GrownExtend(before: seq<Byte>, after: seq<Byte>, longer: seq<Byte>, pos: nat, width: nat, code: nat)
    requires Grown(before, after, pos, width, code) && after <= longer
    ensures Grown(before, longer, pos, width, code)
  {
    HoldsExtend(after, longer, pos, width, code);
    forall i | 0 <= i < pos
      ensures StreamBit(before, i) == StreamBit(longer, i)
    {
      assert StreamBit(before, i) == StreamBit(after, i);
    }
  }
}
