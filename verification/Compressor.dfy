/** The writing half of compress/zopen.c: `zwrite`, `output`, `cl_block`, `cl_hash` and the closing
    flush, over the state record's own buffer and hash arrays. */
module Compressor {
  import opened Bits
  import opened Lzw
  import opened LzwFrame
  import opened LzwHash
  import opened LzwBits

  const ZBUFSIZ: nat := 8192
  const BITS: nat := 16
  const CHECK_GAP: nat := 10000
  datatype State = S_START | S_MIDDLE

  /** No CLEAR is sent for the first 9999 bytes of input, and no two for fewer than 10000 bytes. */
  predicate Spaced(clears: seq<bool>) {
    (forall i :: 0 <= i < |clears| && clears[i] ==> i + 2 >= 10000)
    && forall i, j :: 0 <= i < j < |clears| && clears[i] && clears[j] ==> j - i >= 10000
  }

  /** The checkpoint is as far behind every CLEAR. */
  predicate Passed(clears: seq<bool>, checkpoint: nat) {
    checkpoint >= 10000 && forall i :: 0 <= i < |clears| && clears[i] ==> i + 2 + 10000 <= checkpoint
  }

  /** Bytes read for each byte written, in units of 1/256 as long as that cannot overflow. */
  function Rate(inCount: nat, bytesOut: nat): nat
    requires bytesOut > 0
  {
    if inCount <= 8388607 then inCount * 256 / bytesOut
    else if bytesOut < 256 then 2147483647
    else inCount / (bytesOut / 256)
  }

  lemma SpacedSnoc(clears: seq<bool>, clear: bool, before: nat, after: nat)
    requires Spaced(clears) && Passed(clears, before)
    requires clear ==> |clears| + 2 >= before && after == |clears| + 2 + 10000
    requires after == before || (|clears| + 2 >= before && after == |clears| + 2 + 10000)
    ensures Spaced(clears + [clear]) && Passed(clears + [clear], after)
  {
  }

  class Writer {
    // the file behind zs_fd
    var file: seq<Byte>

    var state: State
    var nBits: nat
    var maxBits: nat
    var maxCode: nat
    var maxMaxCode: nat
    const htab: array<int>
    const codetab: array<int>
    var freeEnt: nat
    var clearFlg: bool
    var ratio: nat
    var checkpoint: nat
    var inCount: nat
    var bytesOut: nat
    const buf: array<Byte>
    var bp: nat
    var offset: nat
    var ent: nat

    // the input accepted, the clear decisions taken, and the encoder they lead to
    ghost var input: seq<Byte>
    ghost var clears: seq<bool>
    ghost var enc: Encoder
    ghost var places: seq<nat>
    ghost var dist: seq<nat>
    // the compressed bytes after the header: those on file, then those still in the buffer
    ghost var stream: seq<Byte>

    /** The writer stands at position f of the layout. */
    ghost predicate Stands(f: Frame)
      reads `file, `bp, `offset, `nBits, `maxCode
    {
      |file| - 3 + bp == f.base && offset == f.off && nBits == f.width && maxCode == f.maxcode
    }

    /** The buffer is laid out as the stream's tail. */
    ghost predicate Buffered()
      reads `file, `bp, `offset, `stream, buf
    {
      && buf.Length == ZBUFSIZ && |file| >= 3 && bp + Bytes(offset) <= ZBUFSIZ
      && stream == file[3..] + buf[..][..bp + Bytes(offset)]
    }

    /** Exactly `codes` have been sent. */
    ghost predicate Wire(codes: seq<nat>)
      reads `maxBits, `maxMaxCode, `nBits, `maxCode, `file, `bytesOut, `bp, `offset, `stream, buf
    {
      && 1 <= maxBits <= 16 && maxMaxCode == Pow2(maxBits)
      && Buffered() && bp + nBits <= ZBUFSIZ && bytesOut == |file| && file[..3] == Header(maxBits)
      && Stands(Layout(codes, maxBits)) && Carries(stream, codes, maxBits)
    }

    /** The hash arrays hold exactly `es`. */
    ghost predicate Table(es: seq<Entry>)
      reads `maxBits, `freeEnt, `places, `dist, htab, codetab
    {
      && htab != codetab && htab.Length == codetab.Length == HSIZE
      && freeEnt == FIRST + |es|
      && Holds(htab[..], codetab[..], es, places, dist, maxBits)
    }

    ghost predicate Working(e: Encoder)
      reads `ent, `clearFlg, `maxBits, `maxMaxCode, `nBits, `maxCode, `file, `bytesOut, `bp, `offset, `stream, buf
      reads `freeEnt, `places, `dist, htab, codetab
    {
      Wire(e.codes) && Table(e.entries) && ent == e.ent && !clearFlg
    }

    ghost predicate Valid()
      reads this, buf, htab, codetab
    {
      && 1 <= maxBits <= 16 && maxMaxCode == Pow2(maxBits)
      && htab != codetab && htab.Length == codetab.Length == HSIZE && buf.Length == ZBUFSIZ
      && (state == S_START ==> file == [] && input == [] && clears == [])
      && (state == S_MIDDLE ==>
            && |input| == |clears| + 1
            && enc == FeedAll(input, clears, maxMaxCode)
            && inCount == |input| && Spaced(clears) && Passed(clears, checkpoint)
            && Working(enc))
    }

    /** z_wopen: `bits` is 0 for the default or the wanted maximum width. */
    constructor (bits: nat)
      requires bits <= 16
      ensures Valid() && state == S_START && input == [] && file == []
      ensures maxBits == if bits == 0 then 16 else bits
      ensures fresh(htab) && fresh(codetab) && fresh(buf)
    {
      file := [];
      state := S_START;
      nBits := 0;
      maxBits := if bits != 0 then bits else BITS;
      maxCode := 0;
      maxMaxCode := Pow2(if bits != 0 then bits else BITS);
      htab := new int[HSIZE];
      codetab := new int[HSIZE];
      freeEnt := 0;
      clearFlg := false;
      ratio := 0;
      checkpoint := CHECK_GAP;
      inCount := 0;
      bytesOut := 0;
      buf := new Byte[ZBUFSIZ];
      bp := 0;
      offset := 0;
      ent := 0;
      input, clears, places, dist, stream := [], [], [], [], [];
      enc := Begin(0);
    }

    /** Bit insertion, the first half of `output`: the code lands at the writer's position and no
        earlier bit changes. */
    method PutBits(code: nat, ghost pos: nat, ghost width: nat)
      requires pos == 8 * bp + offset && width == nBits && code < Pow2(nBits)
      requires buf.Length == ZBUFSIZ && 9 <= nBits <= 16
      requires bp + nBits <= ZBUFSIZ && offset + nBits <= 8 * nBits
      modifies buf
      ensures HoldsAt(buf[..], pos, width, code) && SameBits(old(buf[..]), buf[..], pos)
    {
      hide HoldsAt, SameBits, FirstByte, MiddleByte, Pow2;
      var p := bp + offset / 8;
      var rOff := offset % 8;
      assert 8 * p + rOff == pos;
      ghost var s := buf[..];
      StoredHolds(s, p, rOff, nBits, code);
      var bits := nBits;
      buf[p] := FirstByte(buf[p], code, rOff);
      p := p + 1;
      bits := bits - (8 - rOff);
      var shift := 8 - rOff;
      if bits >= 8 {
        buf[p] := MiddleByte(code, shift);
        p := p + 1;
        shift := shift + 8;
        bits := bits - 8;
      }
      if bits > 0 {
        buf[p] := MiddleByte(code, shift);
      }
      assert buf[..] == Stored(s, bp + offset / 8, rOff, nBits, code);
    }

    /** The code joins the stream. */
    method PutCode(code: nat, ghost pos: nat, ghost width: nat)
      requires Buffered() && width == nBits && pos == 8 * (|file| - 3 + bp) + offset && code < Pow2(nBits)
      requires 9 <= nBits <= 16 && bp + nBits <= ZBUFSIZ && offset + nBits <= 8 * nBits
      modifies `stream, buf
      ensures stream == file[3..] + buf[..][..bp + Bytes(offset + nBits)]
      ensures Grown(old(stream), stream, pos, width, code)
    {
      ghost var w, s := file[3..], buf[..];
      ghost var m, m' := bp + Bytes(offset), bp + Bytes(offset + nBits);
      PutBits(code, pos - 8 * |w|, width);
      StoreGrows(w, s, buf[..], pos - 8 * |w|, m, m', width, code);
      stream := w + buf[..][..m'];
    }

    /** The bits of one code and, after the eighth, the end of the group. */
    method Append(code: nat, ghost f: Frame)
      requires Buffered() && Stands(f) && code < Pow2(nBits)
      requires 9 <= nBits <= 16 && bp + nBits <= ZBUFSIZ && offset + nBits <= 8 * nBits
      modifies `bp, `offset, `stream, buf
      ensures Buffered() && Stands(Advance(f))
      ensures (offset > 0 ==> bp + nBits <= ZBUFSIZ) && offset < 8 * nBits
      ensures Grown(old(stream), stream, Bit(f), f.width, code)
    {
      hide Grown, Pow2, HoldsAt;
      PutCode(code, Bit(f), f.width);
      assert Bytes(8 * nBits) == nBits;
      offset := offset + nBits;
      if offset == 8 * nBits {
        bp := bp + nBits;
        offset := 0;
      }
    }

    /** Leave a group early: the rest of its bytes go out as they are. */
    method PadGroup(ghost g: Frame)
      requires Buffered() && Stands(g)
      requires (offset > 0 ==> bp + nBits <= ZBUFSIZ) && offset <= 8 * nBits
      modifies `bp, `offset, `stream
      ensures Buffered() && Stands(CloseGroup(g)) && offset == 0 && old(stream) <= stream
    {
      if offset > 0 {
        stream := file[3..] + buf[..][..bp + nBits];
        bp := bp + nBits;
        offset := 0;
      }
    }

    /** The width after a code that fills the table of the current width, or after CLEAR. */
    method ChangeWidth()
      requires maxMaxCode == Pow2(maxBits)
      modifies `nBits, `maxCode, `clearFlg
      ensures !clearFlg
      ensures nBits == if old(clearFlg) then INIT_BITS else old(nBits) + 1
      ensures maxCode == if !old(clearFlg) && nBits == maxBits then Pow2(maxBits) else MaxCode(nBits)
    {
      if clearFlg {
        nBits := INIT_BITS;
        maxCode := MaxCode(nBits);
        clearFlg := false;
      } else {
        nBits := nBits + 1;
        if nBits == maxBits {
          maxCode := maxMaxCode;
        } else {
          maxCode := MaxCode(nBits);
        }
      }
    }

    /** Start a new group in the next width when the current one is used up, or after CLEAR. */
    method Widen(ghost g: Frame)
      requires Buffered() && Stands(g) && maxMaxCode == Pow2(maxBits)
      requires (offset > 0 ==> bp + nBits <= ZBUFSIZ) && offset < 8 * nBits
      requires clearFlg || freeEnt == g.free
      modifies `bp, `offset, `nBits, `maxCode, `clearFlg, `stream
      ensures Buffered() && Stands(Resize(g, old(clearFlg), maxBits))
      ensures (offset > 0 ==> bp + nBits <= ZBUFSIZ) && !clearFlg && old(stream) <= stream
    {
      if freeEnt > maxCode || clearFlg {
        PadGroup(g);
        ChangeWidth();
      }
    }

    /** Write out the buffered bytes; only ever done between groups. */
    method Flush()
      requires Buffered() && offset == 0 && bytesOut == |file|
      modifies `file, `bytesOut, `bp
      ensures Buffered() && bytesOut == |file|
      ensures bp == 0 && |file| == old(|file| + bp) && file[..3] == old(file[..3])
    {
      file := file + buf[..bp];
      bytesOut := bytesOut + bp;
      bp := 0;
    }

    lemma AdvanceFree(f: Frame)
      ensures Advance(f).free == f.free
    {
    }

    /** Send one code: its bits, the end of the group, the change of width, and the buffer flush. */
    method Output(code: nat, ghost f: Frame)
      requires Buffered() && Stands(f) && bp + nBits <= ZBUFSIZ && bytesOut == |file| && code < Pow2(nBits)
      requires 1 <= maxBits <= 16 && maxMaxCode == Pow2(maxBits) && Room(f, code, maxBits)
      requires (clearFlg <==> code == CLEAR) && (clearFlg || freeEnt == f.free)
      modifies `nBits, `maxCode, `clearFlg, `file, `bytesOut, `bp, `offset, `stream, buf
      ensures Buffered() && Stands(Next(f, code, maxBits)) && bp + nBits <= ZBUFSIZ && bytesOut == |file|
      ensures !clearFlg && file[..3] == old(file[..3])
      ensures Grown(old(stream), stream, Bit(f), f.width, code)
    {
      hide Grown, Bytes, Pow2, Advance, Resize, Buffered;
      AdvanceFree(f);
      Append(code, f);
      ghost var sent := stream;
      Widen(Advance(f));
      GrownExtend(old(stream), sent, stream, Bit(f), f.width, code);
      if bp + nBits > ZBUFSIZ {
        Flush();
      }
    }
  
    /** cl_hash: empty the whole table, sixteen slots at a time and then the rest. */
    method ClearHash()
      requires htab.Length == HSIZE && htab != codetab
      modifies htab
      ensures forall i :: 0 <= i < HSIZE ==> htab[i] == EMPTY
    {
      var p := HSIZE;
      var i := HSIZE - 16;
      while i >= 0
        invariant p == i + 16 && i >= -16
        invariant forall k :: p <= k < HSIZE ==> htab[k] == EMPTY
      {
        forall k | p - 16 <= k < p {
          htab[k] := EMPTY;
        }
        p := p - 16;
        i := i - 16;
      }
      i := i + 16;
      while i > 0
        invariant p == i && i >= 0
        invariant forall k :: p <= k < HSIZE ==> htab[k] == EMPTY
      {
        p := p - 1;
        htab[p] := EMPTY;
        i := i - 1;
      }
    }

    /** The probe sequence: it stops at the key or at the first empty slot of the walk. */
    method Probe(fcode: nat, first: nat, ghost n: nat) returns (i: nat, ghost t: nat)
      requires htab.Length == HSIZE && first < HSIZE && n < HSIZE
      requires WalksEnd(htab[..], first, n)
      ensures i < HSIZE && i == Slot(first, t)
      ensures htab[i] == fcode || htab[i] == EMPTY
      ensures forall u: nat :: u < t ==> htab[Slot(first, u)] >= 0 && htab[Slot(first, u)] != fcode
    {
      i := first;
      t := 0;
      while htab[i] >= 0 && htab[i] != fcode
        invariant i < HSIZE && i == Slot(first, t) && t <= n
        invariant forall u: nat :: u < t ==> htab[Slot(first, u)] >= 0 && htab[Slot(first, u)] != fcode
        decreases n - t
      {
        i := NextSlot(i, first);
        t := t + 1;
        assert AllTaken(htab[..], first, t);
      }
    }
  
    /** `output` of a code that fits, on top of the codes already sent. */
    method Send(code: nat, ghost codes: seq<nat>)
      requires Wire(codes) && freeEnt >= FIRST
      requires if clearFlg then code == CLEAR
               else freeEnt == Layout(codes, maxBits).free && IsCode(code, freeEnt - FIRST)
      modifies `nBits, `maxCode, `clearFlg, `file, `bytesOut, `bp, `offset, `stream, buf
      ensures Wire(codes + [code]) && !clearFlg
    {
      ghost var f := Layout(codes, maxBits);
      hide Carries, Buffered, Grown, Layout, Next;
      ghost var before := stream;
      LayoutValid(codes, maxBits);
      HasRoom(f, code, maxBits);
      CodeFits(f, code, maxBits);
      LayoutSnoc(codes, code, maxBits);
      Output(code, f);
      GrownCarries(before, stream, codes, code, maxBits);
    }
  
    /** The compression-ratio test of `cl_block`. */
    method RatioFell() returns (fell: bool)
      requires bytesOut > 0
      modifies `checkpoint, `ratio
      ensures checkpoint == inCount + 10000
      ensures var rat := Rate(inCount, bytesOut); if rat > old(ratio) then !fell && ratio == rat else fell && ratio == 0
    {
      checkpoint := inCount + CHECK_GAP;
      var rat: nat;
      if inCount > 0x007fffff {
        rat := bytesOut / 256;
        if rat == 0 {
          rat := 0x7fffffff;
        } else {
          rat := inCount / rat;
        }
      } else {
        rat := (inCount * 256) / bytesOut;
      }
      fell := rat <= ratio;
      ratio := if fell then 0 else rat;
    }

    /** Empty the dictionary. */
    method ResetTable()
      requires htab != codetab && htab.Length == codetab.Length == HSIZE
      modifies `freeEnt, `places, `dist, htab
      ensures Table([])
    {
      ClearHash();
      freeEnt := FIRST;
      places, dist := [], [];
      EmptyHolds(htab[..], codetab[..], maxBits);
    }

    lemma HeaderOut(codes: seq<nat>)
      requires Wire(codes)
      ensures bytesOut >= 3
    {
    }

    /** cl_block: when the ratio has fallen, empty the dictionary and send CLEAR. */
    method ClearBlock(ghost codes: seq<nat>, ghost es: seq<Entry>) returns (cleared: bool)
      requires Wire(codes) && Table(es) && !clearFlg
      modifies `checkpoint, `ratio, `freeEnt, `places, `dist, htab
      modifies `nBits, `maxCode, `clearFlg, `file, `bytesOut, `bp, `offset, `stream, buf
      ensures !clearFlg && checkpoint == inCount + 10000
      ensures cleared ==> ratio == 0
      ensures if cleared then Wire(codes + [CLEAR]) && Table([]) else Wire(codes) && Table(es)
    {
      hide Holds, Carries, Stands, Rate, Layout, Buffered, Pow2;
      HeaderOut(codes);
      cleared := RatioFell();
      if cleared {
        ResetTable();
        clearFlg := true;
        Send(CLEAR, codes);
      }
    }
  
    /** Look an entry up; if it is absent, the slot found is where it belongs. */
    method Lookup(next: Entry, ghost e: Encoder) returns (found: bool, i: nat, ghost t: nat)
      requires Table(e.entries) && Sane(e, maxBits) && next.prefix == e.ent
      ensures i < HSIZE && found == (next in e.entries)
      ensures found ==> codetab[i] == CodeOf(e.entries, next)
      ensures !found ==> i == Slot(FirstSlot(next), t) && htab[i] == EMPTY && AllTaken(htab[..], FirstSlot(next), t)
    {
      var fcode := Key(next, maxBits);
      ghost var h, c := htab[..], codetab[..];
      WalkBounded(h, c, e.entries, places, dist, maxBits, FirstSlot(next));
      i, t := Probe(fcode, FirstSlot(next), |e.entries|);
      found := htab[i] == fcode;
      if found {
        Hit(h, c, e.entries, places, dist, maxBits, next, i);
      } else {
        Miss(h, c, e.entries, places, dist, maxBits, next, t);
      }
    }

    /** code -> hash table. */
    method Enter(next: Entry, i: nat, ghost t: nat, ghost es: seq<Entry>)
      requires Table(es) && next.prefix < 65536 && next.prefix < Pow2(maxBits)
      requires i < HSIZE && i == Slot(FirstSlot(next), t) && htab[i] == EMPTY && AllTaken(htab[..], FirstSlot(next), t)
      modifies `freeEnt, `places, `dist, htab, codetab
      ensures Table(es + [next])
    {
      Insert(htab[..], codetab[..], es, places, dist, maxBits, next, t);
      ghost var h, c := htab[..][i := Key(next, maxBits)], codetab[..][i := FIRST + |es|];
      codetab[i] := freeEnt;
      freeEnt := freeEnt + 1;
      htab[i] := Key(next, maxBits);
      places, dist := places + [i], dist + [t];
      assert htab[..] == h && codetab[..] == c;
    }

    /** The string ends at c and the dictionary has room. */
    method SendNew(c: Byte, i: nat, ghost t: nat, ghost e: Encoder)
      requires Working(e) && Sane(e, maxBits) && freeEnt < maxMaxCode
      requires var next := Entry(e.ent, c);
               i < HSIZE && i == Slot(FirstSlot(next), t) && htab[i] == EMPTY && AllTaken(htab[..], FirstSlot(next), t)
      modifies `ent, `freeEnt, `places, `dist, htab, codetab
      modifies `nBits, `maxCode, `clearFlg, `file, `bytesOut, `bp, `offset, `stream, buf
      ensures Working(Encoder(e.codes + [e.ent], c, e.entries + [Entry(e.ent, c)]))
    {
      hide Holds, Distinct, WellFormed, Buffered, Carries, Stands, Slot, AllTaken, Pow2, Layout;
      var next := Entry(ent, c);
      Send(ent, e.codes);
      ent := c;
      Enter(next, i, t, e.entries);
    }

    /** The string ends at c and the dictionary is full. */
    method SendFull(c: Byte, ghost e: Encoder) returns (ghost cleared: bool)
      requires Working(e) && Sane(e, maxBits)
      modifies `ent, `checkpoint, `ratio, `freeEnt, `places, `dist, htab
      modifies `nBits, `maxCode, `clearFlg, `file, `bytesOut, `bp, `offset, `stream, buf
      ensures Working(if cleared then Encoder(e.codes + [e.ent] + [CLEAR], c, []) else Encoder(e.codes + [e.ent], c, e.entries))
      ensures if inCount < old(checkpoint) then !cleared && unchanged(`checkpoint, `ratio)
              else checkpoint == inCount + 10000 && (cleared ==> ratio == 0)
    {
      hide Holds, Distinct, WellFormed, Buffered, Carries, Stands, Layout, Pow2;
      cleared := false;
      Send(ent, e.codes);
      ent := c;
      if inCount >= checkpoint {
        cleared := ClearBlock(e.codes + [e.ent], e.entries);
      }
    }

    lemma FreeIs(e: Encoder)
      requires Working(e) && Sane(e, maxBits)
      ensures freeEnt == FIRST + |e.entries| && maxMaxCode == Pow2(maxBits) && codetab.Length == HSIZE
    {
    }

    /** One byte of input. */
    method WriteByte(c: Byte, ghost e: Encoder) returns (ghost cleared: bool)
      requires Working(e) && Sane(e, maxBits)
      modifies this, buf, htab, codetab
      ensures Working(Feed(e, c, cleared, maxMaxCode))
      ensures inCount == old(inCount) + 1 && (cleared ==> inCount >= old(checkpoint))
      ensures checkpoint == old(checkpoint) || (inCount >= old(checkpoint) && checkpoint == inCount + 10000)
      ensures cleared ==> checkpoint == inCount + 10000
      ensures unchanged(`state, `maxBits, `maxMaxCode, `input, `clears, `enc)
    {
      hide Holds, Distinct, WellFormed, Wire, Layout, FrameValid, CodeOf, Slot, AllTaken, Pow2, Table, Sane;
      FreeIs(e);
      cleared := false;
      inCount := inCount + 1;
      var found, i, t := Lookup(Entry(ent, c), e);
      if found {
        ent := codetab[i];
      } else if freeEnt < maxMaxCode {
        SendNew(c, i, t, e);
      } else {
        cleared := SendFull(c, e);
        assert e.codes + [e.ent] + [CLEAR] == e.codes + [e.ent, CLEAR];
      }
    }
  
    /** The output side of the S_START case: the file header and an empty buffer. */
    method StartOutput()
      requires 1 <= maxBits <= 16 && maxMaxCode == Pow2(maxBits) && buf.Length == ZBUFSIZ
      modifies `file, `bp, `offset, `bytesOut, `clearFlg, `ratio, `inCount, `checkpoint, `nBits, `maxCode, `stream
      ensures Wire([]) && !clearFlg && inCount == 1 && checkpoint == 10000 && ratio == 0
    {
      hide Layout, Carries, Pow2;
      NothingSent(maxBits);
      file := Header(maxBits);
      bp := 0;
      offset := 0;
      bytesOut := 3;
      clearFlg := false;
      ratio := 0;
      inCount := 1;
      checkpoint := CHECK_GAP;
      nBits := INIT_BITS;
      maxCode := MaxCode(nBits);
      stream := [];
    }

    /** The S_START case of `zwrite`: header, first character, empty table. */
    method WriteFirst(b: Byte)
      requires Valid() && state == S_START
      modifies this, htab
      ensures Valid() && state == S_MIDDLE && input == [b] && maxBits == old(maxBits)
    {
      hide Table, Wire, Working, Pow2, Valid;
      AtStart();
      ResetTable();
      StartOutput();
      ent := b;
      Began(b);
      state := S_MIDDLE;
      input, clears, enc := [b], [], Begin(b);
      InMiddle(b);
    }

    lemma AtStart()
      requires Valid()
      ensures 1 <= maxBits <= 16 && maxMaxCode == Pow2(maxBits)
      ensures htab != codetab && htab.Length == codetab.Length == HSIZE && buf.Length == ZBUFSIZ
    {
    }

    lemma Began(b: Byte)
      requires Wire([]) && Table([]) && ent == b && !clearFlg
      ensures Working(Begin(b))
    {
      hide Wire, Table;
    }

    lemma InMiddle(b: Byte)
      requires 1 <= maxBits <= 16 && maxMaxCode == Pow2(maxBits)
      requires htab != codetab && htab.Length == codetab.Length == HSIZE && buf.Length == ZBUFSIZ
      requires state == S_MIDDLE && input == [b] && clears == [] && enc == Begin(b) && inCount == 1 && checkpoint == 10000
      requires Working(enc)
      ensures Valid()
    {
      hide Working, Pow2;
    }

    /** zwrite: accept a chunk of input. The first chunk of a stream must not be empty. */
    method Write(data: seq<Byte>) returns (n: nat)
      requires Valid() && (state == S_START ==> data != [])
      modifies this, buf, htab, codetab
      ensures Valid() && n == |data| && maxBits == old(maxBits)
      ensures input == old(input) + data && (state == S_MIDDLE || old(state) == S_MIDDLE)
    {
      hide Working, Sane, FeedAll, Feed, Pow2, Spaced, Passed;
      var k := 0;
      if state == S_START {
        WriteFirst(data[0]);
        k := 1;
      }
      while k < |data|
        invariant k <= |data| && state == S_MIDDLE
        invariant Valid() && maxBits == old(maxBits)
        invariant input == old(input) + data[..k]
      {
        FeedAllSane(input, clears, maxBits);
        ghost var before := checkpoint;
        ghost var cleared := WriteByte(data[k], enc);
        SpacedSnoc(clears, cleared, before, checkpoint);
        enc := Feed(enc, data[k], cleared, maxMaxCode);
        FeedAllSnoc(input, clears, data[k], cleared, maxMaxCode);
        input, clears := input + [data[k]], clears + [cleared];
        k := k + 1;
      }
      n := |data|;
    }
  
    /** `output` at end of file: write the rest of the buffer, the last group cut to the bytes it uses. */
    method OutputEnd()
      requires Buffered() && bytesOut == |file|
      modifies `file, `bytesOut, `bp, `offset
      ensures file == old(file[..3]) + stream && offset == 0 && bp == 0
    {
      if offset > 0 {
        bp := bp + Bytes(offset);
      }
      if bp > 0 {
        file := file + buf[..bp];
        bytesOut := bytesOut + bp;
      }
      offset := 0;
      bp := 0;
    }

    /** z_close: send the last string and empty the buffer. The file is then a header and exactly the
        codes of the greedy encoding of the whole input. */
    method Close()
      requires Valid() && state == S_MIDDLE
      modifies `nBits, `maxCode, `clearFlg, `file, `bytesOut, `bp, `offset, `stream, buf
      ensures unchanged(`input, `clears, `maxBits) && |input| == |clears| + 1 && 1 <= maxBits <= 16
      ensures |file| >= 3 && file[..3] == [31, 157, maxBits + 128] && Spaced(clears)
      ensures Framed(file[3..], Finish(FeedAll(input, clears, Pow2(maxBits))), maxBits)
    {
      hide Holds, Sane, FeedAll, Carries, Layout;
      FeedAllSane(input, clears, maxBits);
      SendLast();
      OutputEnd();
      assert file[3..] == stream;
      HeaderBytes(maxBits);
    }

    method SendLast()
      requires Working(enc) && Sane(enc, maxBits)
      modifies `nBits, `maxCode, `clearFlg, `file, `bytesOut, `bp, `offset, `stream, buf
      ensures Wire(Finish(enc)) && |stream| == Length(Layout(Finish(enc), maxBits))
    {
      hide Holds, Distinct, WellFormed, Carries, Layout;
      Send(ent, enc.codes);
    }
  }
}
