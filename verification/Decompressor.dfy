/** The reading half of compress/zopen.c: `getcode` with its refilled buffer and `zread` with its
    resumable output stack, over the state record's own buffer and tables. */
module Decompressor {
  import opened Bits
  import opened Lzw
  import opened LzwFrame
  import opened LzwBits
  import opened LzwLock

  const ZBUFSIZ: nat := 8192
  const BITS: nat := 16
  // de_stack: what is left of the hash table's bytes behind the suffix table
  const STACK: nat := 69001 * 8 - 65536

  datatype State = S_START | S_MAGIC | S_MIDDLE | S_EOF

  class Reader {
    // the file behind zs_fd and the read position in it
    const src: seq<Byte>
    var pos: nat

    var state: State
    var nBits: nat
    var maxBits: nat
    var maxCode: nat
    var maxMaxCode: nat
    const tabPrefix: array<nat>
    const tabSuffix: array<Byte>
    var freeEnt: nat
    var blockCompress: bool
    var clearFlg: bool
    const buf: array<Byte>
    var bp: nat
    var ebp: nat
    var offset: nat
    var size: int
    const stack: array<Byte>
    var stackp: nat
    var finchar: Byte
    var oldcode: nat
    var incode: nat

    // the codes in the file and how many of them have been read
    ghost const codes: seq<nat>
    // the width limit in the file's header
    ghost const bits: nat
    ghost var k: nat
    // how many bytes of output have been handed out
    ghost var delivered: nat

    /** buf[..ebp] is the part of the file just before the read position. */
    ghost predicate Mirror()
      reads `pos, `ebp, buf
    {
      && 3 <= pos <= |src| && ebp <= pos - 3 && ebp <= buf.Length == ZBUFSIZ
      && buf[..ebp] == src[pos - ebp..pos]
    }

    /** Move the unread bytes to the front. */
    method KeepUnread() returns (p: nat)
      requires Mirror()
      modifies `bp, buf
      ensures p == (if old(bp) < ebp then ebp - old(bp) else 0) && p <= ebp
      ensures forall i :: 0 <= i < p ==> buf[i] == src[pos - p + i]
    {
      p := 0;
      ghost var b, part := bp, buf[..ebp];
      while bp < ebp
        invariant bp == b + p && (p == 0 || bp <= ebp)
        invariant b <= ebp ==> buf[..p] == part[b..b + p]
        invariant forall i :: bp <= i < ebp ==> buf[i] == part[i]
      {
        buf[p] := buf[bp];
        p := p + 1;
        bp := bp + 1;
      }
    }

    /** Refill the buffer: keep the unread bytes, then read as much as fits. */
    method Refill()
      requires Mirror()
      modifies `pos, `bp, `ebp, buf
      ensures Mirror() && bp == 0
      ensures pos - ebp == old(pos) - (if old(bp) < old(ebp) then old(ebp - bp) else 0)
      ensures ebp == ZBUFSIZ || pos == |src|
    {
      var p := KeepUnread();
      var bits := Min(ZBUFSIZ - p, |src| - pos);
      forall i | 0 <= i < bits {
        buf[p + i] := src[pos + i];
      }
      ghost var from := pos - p;
      assert forall i :: 0 <= i < p + bits ==> buf[i] == src[from + i];
      pos := pos + bits;
      bp := 0;
      ebp := p + bits;
      assert pos - ebp == from && buf[..ebp] == src[from..from + ebp];
    }
  
    /** The position in the stream's body that bp stands for. */
    ghost function Base(): int
      reads `pos, `bp, `ebp
    {
      pos - 3 - ebp + bp
    }

    /** The last code was read at position f of the layout, in a group the buffer holds as far as the
        file goes. */
    ghost predicate InGroup(f: Frame)
      reads `pos, `bp, `ebp, `offset, `size, `nBits, `maxCode, buf
    {
      && Mirror() && 9 <= nBits <= 16
      && Base() == f.base && offset == f.off + f.width && nBits == f.width && maxCode == f.maxcode
      && size == 8 * Min(nBits, |src| - 3 - f.base) - (nBits - 1)
      && bp < ebp && (bp + nBits <= ebp || pos == |src|)
    }

    /** The change of width in `getcode`. */
    method ChangeWidth()
      requires maxMaxCode == Pow2(maxBits)
      modifies `nBits, `maxCode, `clearFlg
      ensures !clearFlg
      ensures nBits == if old(clearFlg) then INIT_BITS else if freeEnt > old(maxCode) then old(nBits) + 1 else old(nBits)
      ensures maxCode == if old(clearFlg) then MaxCode(INIT_BITS)
                         else if freeEnt <= old(maxCode) then old(maxCode)
                         else if nBits == maxBits then Pow2(maxBits) else MaxCode(nBits)
    {
      if freeEnt > maxCode {
        nBits := nBits + 1;
        if nBits == maxBits {
          maxCode := maxMaxCode;
        } else {
          maxCode := MaxCode(nBits);
        }
      }
      if clearFlg {
        nBits := INIT_BITS;
        maxCode := MaxCode(nBits);
        clearFlg := false;
      }
    }

    /** Step to the group that starts at byte b of the body, refilling the buffer when it is short. */
    method OpenGroup(ghost b: nat) returns (more: bool)
      requires Mirror() && 9 <= nBits <= 16
      requires if bp <= ebp then Base() == b else (pos == |src| && b >= |src| - 3) || (pos == 3 && ebp == 0 && b == 0)
      modifies `pos, `bp, `ebp, `offset, `size, buf
      ensures Mirror() && more == (b < |src| - 3)
      ensures more ==> Base() == b && offset == 0 && bp < ebp && (bp + nBits <= ebp || pos == |src|)
      ensures more ==> size == 8 * Min(nBits, |src| - 3 - b) - (nBits - 1)
    {
      if bp + nBits > ebp {
        Refill();
      }
      offset := 0;
      size := Min(nBits, ebp - bp);
      if size == 0 {
        return false;
      }
      size := size * 8 - (nBits - 1);
      more := true;
    }

    /** The second half of `getcode`: join the bytes that hold the code. The byte read under an empty
        mask is skipped here. */
    method Fetch(ghost c: nat) returns (gcode: nat)
      requires Mirror() && 9 <= nBits <= 16 && 8 * bp + offset + nBits <= 8 * ebp
      requires HoldsAt(buf[..ebp], 8 * bp + offset, nBits, c)
      modifies `offset
      ensures gcode == c && offset == old(offset) + nBits
    {
      var p := bp + offset / 8;
      var rOff := offset % 8;
      var bits := nBits;
      hide HoldsAt, Shr, Shl, Low;
      assert 8 * p + rOff == 8 * bp + offset;
      FetchedIsCode(buf[..ebp], p, rOff, nBits, c);
      ghost var r := rOff;
      gcode := Shr(buf[p], rOff);
      p := p + 1;
      bits := bits - (8 - rOff);
      rOff := 8 - rOff;
      if bits >= 8 {
        gcode := gcode + Shl(buf[p], rOff);
        p := p + 1;
        rOff := rOff + 8;
        bits := bits - 8;
      }
      if bits > 0 {
        gcode := gcode + Shl(Low(buf[p], bits), rOff);
      }
      assert gcode == Fetched(buf[..ebp], bp + offset / 8, r, nBits);
      offset := offset + nBits;
    }
  
    /** The reader stands at position g of the layout. */
    ghost predicate Stands(g: Frame)
      reads `pos, `bp, `ebp, `offset, `size, `nBits, `maxCode, buf
    {
      && Mirror() && Base() == g.base && offset == g.off && nBits == g.width && maxCode == g.maxcode
      && size == 8 * Min(nBits, |src| - 3 - g.base) - (nBits - 1)
      && bp < ebp && (bp + nBits <= ebp || pos == |src|)
    }

    /** Between two codes: the position is still that of the code read last, and the dictionary is as
        large as the writer's was then. */
    ghost predicate Lag()
      requires k <= |codes|
      reads `pos, `bp, `ebp, `offset, `size, `nBits, `maxCode, `maxBits, `clearFlg, `freeEnt, `k, buf
    {
      if k == 0 then
        && Mirror() && pos == 3 && bp == ebp == 0 && offset == 0 && size == 0
        && nBits == INIT_BITS && maxCode == MaxCode(INIT_BITS) && !clearFlg
      else
        var f := Layout(codes[..k - 1], maxBits);
        && InGroup(f) && clearFlg == (codes[k - 1] == CLEAR)
        && (!clearFlg ==> ((freeEnt > maxCode) == (f.free > f.maxcode)))
    }

    /** The step of `getcode` to a new group. */
    method NextGroup(ghost b: nat) returns (more: bool)
      requires Mirror() && 9 <= nBits < 16 + (if clearFlg || freeEnt <= maxCode then 1 else 0)
      requires maxMaxCode == Pow2(maxBits)
      requires if bp + nBits <= ebp then Base() + nBits == b
               else (pos == |src| && Base() + nBits == b) || (pos == 3 && ebp == 0 && b == 0)
      modifies `pos, `bp, `ebp, `offset, `size, `nBits, `maxCode, `clearFlg, buf
      ensures more == (b < |src| - 3) && !clearFlg
      ensures nBits == if old(clearFlg) then INIT_BITS else if freeEnt > old(maxCode) then old(nBits) + 1 else old(nBits)
      ensures maxCode == if old(clearFlg) then MaxCode(INIT_BITS)
                         else if freeEnt <= old(maxCode) then old(maxCode)
                         else if nBits == maxBits then Pow2(maxBits) else MaxCode(nBits)
      ensures Mirror()
      ensures more ==> Base() == b && offset == 0 && bp < ebp && (bp + nBits <= ebp || pos == |src|)
      ensures more ==> size == 8 * Min(nBits, |src| - 3 - b) - (nBits - 1)
    {
      bp := bp + nBits;
      ChangeWidth();
      more := OpenGroup(b);
    }

    /** The first half of `getcode`: enter the next group if the code read last was its last. */
    method FindCode() returns (more: bool)
      requires |src| >= 3 && Readable(src[3..], codes, maxBits) && maxMaxCode == Pow2(maxBits)
      requires k <= |codes| && Lag() && (k == 0 ==> freeEnt <= maxCode)
      modifies `pos, `bp, `ebp, `offset, `size, `nBits, `maxCode, `clearFlg, buf
      ensures more == (k < |codes|)
      ensures more ==> Stands(Layout(codes[..k], maxBits)) && !clearFlg
    {
      hide Layout, Readable, Pow2, Framed, Next, Carries;
      ghost var b := 0;
      if k == 0 {
        FirstCodeInside(src[3..], codes, maxBits);
        assert codes[..0] == [];
        NothingSent(maxBits);
      } else {
        Ahead(src[3..], codes, k, maxBits);
        b := Layout(codes[..k - 1], maxBits).base + nBits;
      }
      ghost var g := Layout(codes[..k], maxBits);
      more := true;
      if clearFlg || offset >= size || freeEnt > maxCode {
        more := NextGroup(b);
        assert more ==> nBits == g.width && maxCode == g.maxcode;
        assert more ==> b == g.base && g.off == 0;
      } else {
        assert k > 0 && !LeavesGroup(Layout(codes[..k - 1], maxBits), codes[k - 1], |src| - 3);
      }
    }
  
    /** Fetch the code at position g. */
    method FetchAt(ghost g: Frame, ghost c: nat) returns (gcode: nat)
      requires |src| >= 3 && Stands(g) && 9 <= g.width <= 16 && g.off + g.width <= 8 * g.width
      requires HoldsAt(src[3..], Bit(g), g.width, c)
      modifies `offset
      ensures gcode == c && InGroup(g)
    {
      ghost var x := pos - 3 - ebp;
      assert src[3..][x..pos - 3] == buf[..ebp];
      HoldsSlice(src[3..], x, pos - 3, Bit(g), g.width, c);
      gcode := Fetch(c);
    }

    /** getcode: the next code of the stream, or -1 after the last. */
    method GetCode() returns (c: int)
      requires |src| >= 3 && Readable(src[3..], codes, maxBits) && maxMaxCode == Pow2(maxBits)
      requires k <= |codes| && Lag() && (k == 0 ==> freeEnt <= maxCode)
      modifies `pos, `bp, `ebp, `offset, `size, `nBits, `maxCode, `clearFlg, `k, buf
      ensures if old(k) == |codes| then c == -1 && k == old(k)
              else c == codes[old(k)] && k == old(k) + 1 && !clearFlg && InGroup(Layout(codes[..old(k)], maxBits))
    {
      hide Layout, HoldsAt, Pow2, Carries, FrameValid, Lag, InGroup;
      var more := FindCode();
      if !more {
        return -1;
      }
      ghost var g := Layout(codes[..k], maxBits);
      CodeInside(src[3..], codes, k, maxBits);
      CodePlace(codes[..k], maxBits);
      c := FetchAt(g, codes[k]);
      k := k + 1;
    }

    /** The tables hold the dictionary `es`, and the next free code is behind it. With fewer than nine
        bits the dictionary stays empty and CLEAR leaves 256 as the next code for good. */
    ghost predicate Dict(es: seq<Entry>)
      reads `freeEnt, `maxMaxCode, tabPrefix, tabSuffix
    {
      && tabPrefix.Length == tabSuffix.Length == 65536
      && (forall j :: 0 <= j < 256 ==> tabSuffix[j] == j)
      && FIRST + |es| <= 65536
      && (forall j :: 0 <= j < |es| ==> tabPrefix[FIRST + j] == es[j].prefix && tabSuffix[FIRST + j] == es[j].suffix)
      && (freeEnt == FIRST + |es| || (freeEnt == CLEAR && es == []))
    }

    method PushChar(x: Byte)
      requires stackp < stack.Length
      modifies `stackp, stack
      ensures stackp == old(stackp) + 1 && Rev(stack[..stackp]) == [x] + old(Rev(stack[..stackp]))
    {
      RevPush(stack[..stackp], x);
      stack[stackp] := x;
      stackp := stackp + 1;
      assert stack[..stackp] == old(stack[..stackp]) + [x];
    }

    /** Generate the characters of a code in reverse order. */
    method PushString(c: nat, ghost es: seq<Entry>)
      requires Dict(es) && WellFormed(es) && IsCode(c, |es|)
      requires stack.Length == STACK && stackp <= 1 && stack != tabSuffix
      modifies `stackp, `finchar, stack
      ensures 0 < stackp <= STACK
      ensures Rev(stack[..stackp]) == Expand(es, c) + old(Rev(stack[..stackp]))
      ensures finchar == Expand(es, c)[0]
    {
      var code: nat := c;
      ghost var target := Expand(es, c) + Rev(stack[..stackp]);
      ExpandBounded(es, c);
      while code >= 256
        invariant Dict(es) && IsCode(code, |es|) && stackp + |Expand(es, code)| <= STACK
        invariant Expand(es, code) + Rev(stack[..stackp]) == target
        decreases code
      {
        ExpandStep(es, code, Rev(stack[..stackp]));
        PushChar(tabSuffix[code]);
        code := tabPrefix[code];
      }
      finchar := tabSuffix[code];
      PushChar(finchar);
      assert target[0] == Expand(es, c)[0];
    }
  
    /** The tables of the decoder state d, with the code read before. */
    ghost predicate Primed(d: Decoder)
      reads `freeEnt, `maxMaxCode, `oldcode, tabPrefix, tabSuffix
    {
      && DecoderValid(d) && !d.Bad? && Dict(Entries(d))
      && (d.Ready? ==> freeEnt == CLEAR)
      && (d.Running? ==> oldcode == d.last && (freeEnt == FIRST + |d.entries| || maxMaxCode <= CLEAR))
    }

    /** ... and the first character of the string that code stood for. */
    ghost predicate Knows(d: Decoder)
      reads `freeEnt, `maxMaxCode, `oldcode, `finchar, tabPrefix, tabSuffix
    {
      Primed(d) && (d.Running? ==> finchar == Expand(d.entries, d.last)[0])
    }

    /** Put the string of the code just read on the stack, the KwKwK case included. */
    method Translate(ghost d: Decoder)
      requires Knows(d) && Accepts(d, incode, maxMaxCode)
      requires stack.Length == STACK && stackp == 0 && stack != tabSuffix
      modifies `stackp, `finchar, stack
      ensures 0 < stackp <= STACK && Rev(stack[..stackp]) == Said(d, incode)
      ensures finchar == Said(d, incode)[0]
    {
      var code := incode;
      if code >= freeEnt {
        PushChar(finchar);
        code := oldcode;
      }
      PushString(code, Entries(d));
    }

    /** Generate the new entry, and remember the code. */
    method AddEntry(ghost d: Decoder)
      requires Primed(d) && Accepts(d, incode, maxMaxCode) && maxMaxCode <= 65536
      requires finchar == Said(d, incode)[0]
      modifies `freeEnt, `oldcode, tabPrefix, tabSuffix
      ensures Knows(DecodeStep(d, incode, maxMaxCode))
    {
      SaidIsOutput(d, incode, maxMaxCode);
      var code := freeEnt;
      if code < maxMaxCode {
        tabPrefix[code] := oldcode;
        tabSuffix[code] := finchar;
        freeEnt := code + 1;
      }
      oldcode := incode;
    }
  
    /** All codes so far are dealt with. */
    ghost predicate Settled()
      reads `k, `pos, `bp, `ebp, `offset, `size, `nBits, `maxCode, `maxBits, `clearFlg, buf
      reads `freeEnt, `maxMaxCode, `oldcode, `finchar, tabPrefix, tabSuffix
    {
      && 0 < k <= |codes| && InGroup(Layout(codes[..k - 1], maxBits)) && !clearFlg && codes[k - 1] != CLEAR
      && Decode(codes[..k], maxMaxCode).Running? && Knows(Decode(codes[..k], maxMaxCode))
    }

    /** The last code read is still being put out. */
    ghost predicate Pending()
      reads `k, `pos, `bp, `ebp, `offset, `size, `nBits, `maxCode, `maxBits, `clearFlg, buf
      reads `freeEnt, `maxMaxCode, `oldcode, `incode, `finchar, tabPrefix, tabSuffix
    {
      && 0 < k <= |codes| && InGroup(Layout(codes[..k - 1], maxBits)) && !clearFlg
      && incode == codes[k - 1] != CLEAR
      && var d := Decode(codes[..k - 1], maxMaxCode);
         Primed(d) && Accepts(d, incode, maxMaxCode) && finchar == Said(d, incode)[0]
    }

    ghost predicate Shape()
      reads `maxBits, `maxMaxCode, `blockCompress
    {
      && blockCompress && |src| >= 3 && Readable(src[3..], codes, maxBits)
      && 1 <= maxBits <= 16 && maxMaxCode == Pow2(maxBits)
      && Decode(codes, maxMaxCode).Running?
      && buf.Length == ZBUFSIZ && stack.Length == STACK && stack != tabSuffix && buf != stack && buf != tabSuffix
    }

    /** After the string is out: its entry is added. */
    method Settle()
      requires Shape() && Pending()
      modifies `freeEnt, `oldcode, tabPrefix, tabSuffix
      ensures Settled()
    {
      hide Layout, Readable, InGroup, Knows, Dict, Pow2;
      ghost var d := Decode(codes[..k - 1], maxMaxCode);
      DecodeNext(codes, k - 1, maxMaxCode);
      SaidIsOutput(d, incode, maxMaxCode);
      LimitBound(maxBits);
      AddEntry(d);
    }

    /** The CLEAR code: the tables start over, and the next code is read in nine bits. */
    method AfterClear() returns (c: int)
      requires Shape() && 0 < k < |codes| && codes[k - 1] == CLEAR && InGroup(Layout(codes[..k - 1], maxBits)) && !clearFlg
      requires Dict(Entries(Decode(codes[..k - 1], maxMaxCode)))
      modifies `pos, `bp, `ebp, `offset, `size, `nBits, `maxCode, `clearFlg, `freeEnt, `k, buf, tabPrefix
      ensures k == old(k) + 1 && c == codes[old(k)] && !clearFlg && InGroup(Layout(codes[..old(k)], maxBits))
      ensures freeEnt == CLEAR && Dict([]) && forall i :: 0 <= i < 256 ==> tabPrefix[i] == 0
    {
      hide Layout, Readable, InGroup, Pow2;
      forall i | 0 <= i < 256 {
        tabPrefix[i] := 0;
      }
      clearFlg := true;
      freeEnt := FIRST - 1;
      c := GetCode();
    }
  
    /** The code after the last one dealt with. */
    method CodeAfter() returns (c: int)
      requires Shape() && Settled()
      modifies `pos, `bp, `ebp, `offset, `size, `nBits, `maxCode, `clearFlg, `k, buf
      ensures if old(k) == |codes| then c == -1 && k == old(k)
              else c == codes[old(k)] && k == old(k) + 1 && !clearFlg && InGroup(Layout(codes[..old(k)], maxBits))
    {
      hide Layout, Readable, Decode, Pow2, MaxCode;
      SameWidthTest(codes, k, maxBits, freeEnt);
      c := GetCode();
    }

    lemma AcceptedNotClear(d: Decoder, c: nat, limit: nat)
      ensures Accepts(d, c, limit) ==> c != CLEAR
    {
    }

    /** The next code that is not CLEAR. */
    method ReadCode() returns (more: bool)
      requires Shape() && Settled()
      modifies `pos, `bp, `ebp, `offset, `size, `nBits, `maxCode, `clearFlg, `freeEnt, `incode, `k, buf, tabPrefix
      ensures more == (old(k) < |codes|) && old(k) <= k <= |codes| && (!more ==> k == |codes|)
      ensures more ==> old(k) < k && InGroup(Layout(codes[..k - 1], maxBits)) && !clearFlg && incode == codes[k - 1] != CLEAR
      ensures more ==> Knows(Decode(codes[..k - 1], maxMaxCode)) && Accepts(Decode(codes[..k - 1], maxMaxCode), incode, maxMaxCode)
      ensures more ==> Decode(codes[..k - 1], maxMaxCode).out == Decode(codes[..old(k)], maxMaxCode).out
    {
      hide Layout, Readable, Decode, Pow2, MaxCode, InGroup, Dict, Accepts;
      var code := CodeAfter();
      if code == -1 {
        return false;
      }
      NextAccepted(codes, k - 1, maxMaxCode);
      if code == CLEAR && blockCompress {
        code := AfterClear();
        NextAccepted(codes, k - 1, maxMaxCode);
      }
      AcceptedNotClear(Decode(codes[..k - 1], maxMaxCode), code, maxMaxCode);
      incode := code;
      more := true;
    }

    /** One round of `zread`'s outer loop up to the output: the next code, and its string on the stack. */
    method NextString() returns (more: bool)
      requires Shape() && Settled() && stackp == 0
      modifies `pos, `bp, `ebp, `offset, `size, `nBits, `maxCode, `clearFlg, `freeEnt, `incode, `k, buf, tabPrefix
      modifies `stackp, `finchar, stack
      ensures more == (old(k) < |codes|) && old(k) <= k <= |codes| && (!more ==> k == |codes|)
      ensures more ==> old(k) < k && Pending() && 0 < stackp <= STACK && Decode(codes[..k], maxMaxCode).Running?
      ensures more ==> Decode(codes[..k], maxMaxCode).out == Decode(codes[..old(k)], maxMaxCode).out + Rev(stack[..stackp])
      ensures !more ==> stackp == 0
    {
      hide Layout, Readable, InGroup, Dict, Decode, Pow2, Accepts;
      more := ReadCode();
      if more {
        ghost var d := Decode(codes[..k - 1], maxMaxCode);
        Translate(d);
        SaidIsOutput(d, incode, maxMaxCode);
        DecodeNext(codes, k - 1, maxMaxCode);
      }
    }
  
    /** The file is a header and a readable stream. */
    ghost predicate Sound() {
      && |src| >= 3 && 1 <= bits <= 16 && src[..3] == Header(bits)
      && Readable(src[3..], codes, bits) && Decode(codes, Pow2(bits)).Running?
      && tabPrefix.Length == tabSuffix.Length == 65536 && buf.Length == ZBUFSIZ
      && stack.Length == STACK && stack != tabSuffix && buf != stack && buf != tabSuffix
    }

    /** What the whole file decompresses to. */
    ghost function Total(): seq<Byte>
      requires Sound()
    {
      Decode(codes, Pow2(bits)).out
    }

    ghost predicate Valid()
      reads this, buf, stack, tabPrefix, tabSuffix
    {
      && Sound() && k <= |codes| && stackp <= STACK && delivered <= |Total()|
      && match state
         case S_START =>
           pos == 0 && k == 0 && delivered == 0 && bp == ebp == 0 && offset == 0 && size == 0 && !clearFlg && stackp == 0
         case S_MAGIC =>
           pos == 2 && k == 0 && delivered == 0 && bp == ebp == 0 && offset == 0 && size == 0 && !clearFlg && stackp == 0
         case S_MIDDLE =>
           Within(delivered)
         case S_EOF => delivered == |Total()|
    }

    /** z_ropen: on a file, or behind a magic number that was read already. */
    constructor (file: seq<Byte>, gotMagic: bool, ghost codes: seq<nat>, ghost bits: nat)
      requires |file| >= 3 && 1 <= bits <= 16 && file[..3] == Header(bits)
      requires Readable(file[3..], codes, bits)
      ensures Valid() && delivered == 0 && src == file && this.codes == codes && this.bits == bits
      ensures fresh(buf) && fresh(stack) && fresh(tabPrefix) && fresh(tabSuffix)
    {
      src := file;
      pos := if gotMagic then 2 else 0;
      state := if gotMagic then S_MAGIC else S_START;
      nBits := 0;
      maxBits := BITS;
      maxCode := 0;
      maxMaxCode := Pow2(BITS);
      tabPrefix := new nat[65536];
      tabSuffix := new Byte[65536];
      freeEnt := 0;
      blockCompress := false;
      clearFlg := false;
      buf := new Byte[ZBUFSIZ];
      bp := 0;
      ebp := 0;
      offset := 0;
      size := 0;
      stack := new Byte[STACK];
      stackp := 0;
      finchar := 0;
      oldcode := 0;
      incode := 0;
      k := 0;
      delivered := 0;
      this.codes := codes;
      this.bits := bits;
    }

    /** The first 256 entries of the table. */
    method FirstEntries()
      requires tabPrefix.Length == tabSuffix.Length == 65536
      modifies `freeEnt, tabPrefix, tabSuffix
      ensures freeEnt == if blockCompress then 257 else 256
      ensures forall i :: 0 <= i < 256 ==> tabPrefix[i] == 0 && tabSuffix[i] == i
    {
      forall i | 0 <= i < 256 {
        tabPrefix[i] := 0;
      }
      forall i | 0 <= i < 256 {
        tabSuffix[i] := i;
      }
      freeEnt := if blockCompress then FIRST else 256;
    }

    /** A byte of the file, as `read` leaves it in a cleared header. */
    function FileByte(i: nat): Byte {
      if i < |src| then src[i] else 0
    }

    /** The header, unless the magic number was read before, and the first 256 entries of the table. A false `ok`
        is EFTYPE. */
    method ReadHeader() returns (ok: bool)
      requires pos == 0 || pos == 2
      requires tabPrefix.Length == tabSuffix.Length == 65536
      modifies `pos, `maxBits, `maxMaxCode, `blockCompress, `nBits, `maxCode, `freeEnt, tabPrefix, tabSuffix
      ensures pos == if |src| < 3 then |src| else 3
      ensures old(pos) == 0 && |src| < 2 ==> !ok
      ensures |src| < 3 && ok ==> maxBits == 0 && !blockCompress
      ensures ok <==> (old(pos) == 2 || (FileByte(0) == 31 && FileByte(1) == 157)) && FileByte(2) % 32 <= 16
      ensures ok ==> maxBits == FileByte(2) % 32 && maxMaxCode == Pow2(maxBits) && blockCompress == (FileByte(2) / 128 == 1)
      ensures ok ==> nBits == 9 && maxCode == 511 && freeEnt == if FileByte(2) / 128 == 1 then 257 else 256
      ensures ok ==> forall i :: 0 <= i < 256 ==> tabPrefix[i] == 0 && tabSuffix[i] == i
    {
      hide Pow2;
      SmallPowers();
      var header: seq<Byte> := [31, 157, 0];
      if pos == 0 { header := [FileByte(0), FileByte(1), 0]; }
      header := header[2 := FileByte(2)];
      pos := if |src| < 3 then |src| else 3;
      if header[0] != 31 || header[1] != 157 { return false; }
      maxBits := header[2];
      blockCompress := maxBits / BLOCK_MASK % 2 == 1;
      maxBits := maxBits % 32;
      maxMaxCode := Pow2(maxBits);
      if maxBits > BITS { return false; }
      nBits := INIT_BITS;
      maxCode := MaxCode(nBits);
      FirstEntries();
      ok := true;
    }

    /** A file with a good header is ready to be read, its dictionary empty. */
    lemma GoodHeader()
      requires Sound()
      ensures FileByte(0) == 31 && FileByte(1) == 157 && FileByte(2) == bits + 128
    {
      HeaderBytes(bits);
      assert src[..3][0] == src[0] && src[..3][1] == src[1] && src[..3][2] == src[2];
    }
  
    /** The first code is a character. */
    method FirstCode()
      requires Shape() && pos == 3 && k == 0 && bp == ebp == 0 && offset == 0 && size == 0 && !clearFlg
      requires nBits == INIT_BITS && maxCode == MaxCode(INIT_BITS) && freeEnt == FIRST && Dict([])
      modifies `pos, `bp, `ebp, `offset, `size, `nBits, `maxCode, `clearFlg, `oldcode, `finchar, `k, buf
      ensures k == 1 && Settled() && Decode(codes[..k], maxMaxCode).out == [finchar]
    {
      hide Layout, Readable, InGroup, Dict, Pow2;
      SmallPowers();
      FirstAccepted(codes, maxMaxCode);
      var c := GetCode();
      oldcode := c;
      finchar := c;
    }

    /** Put the stack out in forward order until it is empty or the caller's buffer is full. */
    method Drain(rbp: array<Byte>, from: nat, space: nat) returns (p: nat)
      requires stackp <= stack.Length && from + space <= rbp.Length && rbp != stack
      modifies `stackp, rbp
      ensures p == from + Min(space, old(stackp)) && stackp == old(stackp) - (p - from)
      ensures rbp[..from] == old(rbp[..from]) && rbp[p..] == old(rbp[p..])
      ensures rbp[from..p] + Rev(stack[..stackp]) == old(Rev(stack[..stackp]))
    {
      ghost var said := Rev(stack[..stackp]);
      var count := space;
      p := from;
      assert rbp[from..p] == [];
      while stackp > 0 && count > 0
        invariant stackp <= old(stackp) && p == from + old(stackp) - stackp && count == space - (p - from)
        invariant count >= 0
        invariant rbp[..from] == old(rbp[..from])
        invariant forall i :: p <= i < rbp.Length ==> rbp[i] == old(rbp[i])
        invariant rbp[from..p] + Rev(stack[..stackp]) == said
        decreases stackp
      {
        ghost var x, r := rbp[from..p], Rev(stack[..stackp - 1]);
        assert stack[..stackp][..stackp - 1] == stack[..stackp - 1];
        stackp := stackp - 1;
        rbp[p] := stack[stackp];
        p := p + 1;
        count := count - 1;
        assert rbp[from..p] == x + [stack[stackp]];
        OnePopped(x, stack[stackp], r);
      }
    }
  
    lemma OnePopped(x: seq<Byte>, c: Byte, r: seq<Byte>)
      ensures x + ([c] + r) == (x + [c]) + r
    {
    }

    /** n bytes are out, and the next code is to be read. */
    ghost predicate Between(n: nat)
      reads `k, `pos, `bp, `ebp, `offset, `size, `nBits, `maxCode, `maxBits, `clearFlg, buf
      reads `freeEnt, `maxMaxCode, `blockCompress, `oldcode, `finchar, `incode, `stackp, stack, tabPrefix, tabSuffix
    {
      && Sound() && Shape() && maxBits == bits && Settled() && stackp == 0
      && n <= |Total()| && Decode(codes[..k], maxMaxCode).out == Total()[..n]
    }

    /** n bytes are out, and the rest of the current string is on the stack. */
    ghost predicate Within(n: nat)
      reads `k, `pos, `bp, `ebp, `offset, `size, `nBits, `maxCode, `maxBits, `clearFlg, buf
      reads `freeEnt, `maxMaxCode, `blockCompress, `oldcode, `finchar, `incode, `stackp, stack, tabPrefix, tabSuffix
    {
      && Sound() && Shape() && maxBits == bits && Pending() && 0 < stackp <= STACK
      && n <= |Total()| && Decode(codes[..k], maxMaxCode).Running?
      && Decode(codes[..k], maxMaxCode).out == Total()[..n] + Rev(stack[..stackp])
    }

    lemma EmptyDict()
      requires tabPrefix.Length == tabSuffix.Length == 65536 && freeEnt == FIRST
      requires forall i :: 0 <= i < 256 ==> tabPrefix[i] == 0 && tabSuffix[i] == i
      ensures Dict([])
    {
    }

    /** The S_START and S_MAGIC cases of `zread`. In a file that a writer left behind the header is good. */
    method Start()
      requires Valid() && (state == S_START || state == S_MAGIC)
      modifies this, buf, tabPrefix, tabSuffix
      ensures unchanged(`delivered, `state) && Between(1) && Total()[..1] == [finchar]
    {
      hide Layout, Readable, InGroup, Dict, Pow2, Decode, Settled;
      SmallPowers();
      GoodHeader();
      var ok := ReadHeader();
      assert ok;
      EmptyDict();
      FirstCode();
      IsSettled();
      DecodePrefix(codes, k, maxMaxCode);
    }

    /** The next string. */
    method Continue(ghost n: nat) returns (more: bool)
      requires Between(n)
      modifies `pos, `bp, `ebp, `offset, `size, `nBits, `maxCode, `clearFlg, `freeEnt, `incode, `k, buf, tabPrefix
      modifies `stackp, `finchar, stack
      ensures if more then Within(n) && k > old(k) else n == |Total()| && stackp == 0
      ensures k <= |codes|
    {
      hide Layout, Readable, InGroup, Dict, Pow2, Decode, Settled, Pending;
      assert k <= |codes| by { IsSettled(); }
      more := NextString();
      if more {
        DecodePrefix(codes, k, maxMaxCode);
      } else {
        assert codes[..k] == codes;
      }
    }

    lemma IsSettled()
      requires Settled()
      ensures 0 < k <= |codes| && Decode(codes[..k], maxMaxCode).Running?
    {
    }

    /** Hand out what fits; when the string is finished, add its entry. */
    method HandOut(rbp: array<Byte>, from: nat, space: nat, ghost n: nat) returns (p: nat)
      requires Within(n) && from + space <= rbp.Length && rbp !in {buf, stack, tabSuffix}
      modifies `stackp, `freeEnt, `oldcode, tabPrefix, tabSuffix, rbp
      ensures from <= p <= from + space && n + (p - from) <= |Total()|
      ensures rbp[..from] == old(rbp[..from]) && rbp[from..p] == Total()[n..n + (p - from)]
      ensures if stackp > 0 then p == from + space && Within(n + (p - from)) else Between(n + (p - from))
    {
      hide Layout, Readable, InGroup, Dict, Pow2, Decode, Settled, Pending;
      assert 0 < k <= |codes| by { IsPending(); }
      DecodePrefix(codes, k, maxMaxCode);
      ghost var rest := Rev(stack[..stackp]);
      p := Drain(rbp, from, space);
      ghost var m := p - from;
      OutputSplit(Total(), Decode(codes[..k], maxMaxCode).out, n, rbp[from..p], Rev(stack[..stackp]));
      if stackp == 0 {
        Settle();
      }
    }

    lemma IsBetween(n: nat)
      requires Between(n)
      ensures n <= |Total()| && k <= |codes|
    {
    }

    /** Leave with the current string unfinished. */
    method Pause(ghost n: nat)
      requires Within(n)
      modifies `state, `delivered
      ensures Valid() && delivered == n
    {
      hide Dict, Readable, Decode, Layout;
      delivered := n;
      state := S_MIDDLE;
    }

    lemma IsPending()
      requires Pending()
      ensures 0 < k <= |codes|
    {
    }

    /** The output part of one round of `zread`. */
    method Serve(rbp: array<Byte>, from: nat, num: nat, ghost n: nat) returns (ret: nat)
      requires from <= num <= rbp.Length && rbp !in {buf, stack, tabSuffix}
      requires Within(n + from) && Sound() && n + from <= |Total()| && rbp[..from] == Total()[n..n + from]
      modifies `stackp, `freeEnt, `oldcode, tabPrefix, tabSuffix, rbp
      ensures from <= ret <= num && n + ret <= |Total()| && rbp[..ret] == Total()[n..n + ret]
      ensures if stackp > 0 then ret == num && Within(n + ret) else Between(n + ret)
    {
      hide Within, Between, Readable, Decode, Pow2, Header;
      ret := HandOut(rbp, from, num - from, n + from);
      assert rbp[..ret] == rbp[..from] + rbp[from..ret];
      assert Total()[n..n + ret] == Total()[n..n + from] + Total()[n + from..n + ret];
    }

    /** The first character of the file goes straight to the caller. */
    method Opening(rbp: array<Byte>) returns (ret: nat)
      requires Valid() && (state == S_START || state == S_MAGIC)
      requires 0 < rbp.Length && rbp !in {buf, stack, tabSuffix}
      modifies this, buf, tabPrefix, tabSuffix, rbp
      ensures ret == 1 && unchanged(`delivered, `state) && Between(delivered + 1)
      ensures delivered + 1 <= |Total()| && rbp[..1] == Total()[delivered..delivered + 1]
    {
      hide Layout, Readable, Dict, Pow2, Decode, Between, Within, Header, Shape;
      Start();
      IsBetween(1);
      rbp[0] := finchar;
      ret := 1;
    }

    /** zread: hand out the next `num` bytes of the decompressed file, or what is left of it. */
    method Read(rbp: array<Byte>, num: nat) returns (ret: nat)
      requires Valid() && num <= rbp.Length && rbp !in {buf, stack, tabSuffix}
      modifies this, buf, stack, tabPrefix, tabSuffix, rbp
      ensures Valid()
      ensures ret == Min(num, |Total()| - old(delivered)) && delivered == old(delivered) + ret
      ensures rbp[..ret] == Total()[old(delivered)..delivered]
    {
      hide Layout, Readable, Dict, Pow2, Decode, Between, Within, Header, Shape;
      ret := 0;
      if num == 0 || state == S_EOF {
        return;
      }
      var resume := state == S_MIDDLE;
      if !resume {
        ret := Opening(rbp);
      }
      ghost var n := delivered;
      while true
        invariant ret <= num && n + ret <= |Total()| && rbp[..ret] == Total()[n..n + ret]
        invariant if resume then Within(n + ret) else Between(n + ret)
        decreases |codes| - k, resume
      {
        if !resume {
          var more := Continue(n + ret);
          if !more {
            break;
          }
        }
        resume := false;
        ret := Serve(rbp, ret, num, n);
        if stackp > 0 {
          Pause(n + ret);
          return;
        }
      }
      state := S_EOF;
      delivered := n + ret;
    }
  }
}
