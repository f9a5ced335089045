/** Compressing and decompressing a file, whatever the sizes of the pieces it is written and read in. */
module CompressRoundTrip {
  import opened Bits
  import opened Lzw
  import opened LzwFrame
  import opened LzwLock
  import opened Compressor
  import opened Decompressor

  function Concat(chunks: seq<seq<Byte>>): seq<Byte> {
    if chunks == [] then [] else Concat(chunks[..|chunks| - 1]) + chunks[|chunks| - 1]
  }

  lemma ConcatSnoc(chunks: seq<seq<Byte>>, n: nat)
    requires n < |chunks|
    ensures Concat(chunks[..n + 1]) == Concat(chunks[..n]) + chunks[n]
  {
    assert chunks[..n + 1][..n] == chunks[..n];
  }

  function Sum(sizes: seq<nat>): nat {
    if sizes == [] then 0 else Sum(sizes[..|sizes| - 1]) + sizes[|sizes| - 1]
  }

  lemma SumSnoc(sizes: seq<nat>, n: nat)
    requires n < |sizes|
    ensures Sum(sizes[..n + 1]) == Sum(sizes[..n]) + sizes[n]
  {
    assert sizes[..n + 1][..n] == sizes[..n];
  }

  /** Write every chunk and close the file. */
  method Compress(bits: nat, chunks: seq<seq<Byte>>)
    returns (file: seq<Byte>, ghost codes: seq<nat>, ghost maxbits: nat, ghost clears: seq<bool>)
    requires bits <= 16 && chunks != [] && chunks[0] != []
    ensures maxbits == (if bits == 0 then 16 else bits) && 1 <= maxbits <= 16
    ensures |file| >= 3 && file[0] == 31 && file[1] == 157 && file[2] == maxbits + 128
    ensures Readable(file[3..], codes, maxbits)
    ensures |Concat(chunks)| == |clears| + 1 && Spaced(clears) && codes == Finish(FeedAll(Concat(chunks), clears, Pow2(maxbits)))
    ensures Decode(codes, Pow2(maxbits)).Running? && Decode(codes, Pow2(maxbits)).out == Concat(chunks)
  {
    hide Readable, Decode, FeedAll, Pow2, Framed, Layout, Writer.Working, Spaced;
    var w := new Writer(bits);
    var k := 0;
    while k < |chunks|
      invariant k <= |chunks| && w.Valid() && w.input == Concat(chunks[..k])
      invariant w.state == Compressor.S_MIDDLE || (k == 0 && w.state == Compressor.S_START)
      invariant w.maxBits == (if bits == 0 then 16 else bits)
      invariant fresh(w) && fresh(w.buf) && fresh(w.htab) && fresh(w.codetab)
    {
      var n := w.Write(chunks[k]);
      ConcatSnoc(chunks, k);
      k := k + 1;
    }
    assert chunks[..k] == chunks;
    w.Close();
    file, maxbits := w.file, w.maxBits;
    assert file[..3][0] == 31 && file[..3][1] == 157 && file[..3][2] == maxbits + 128;
    clears := w.clears;
    codes := Finish(FeedAll(w.input, clears, Pow2(maxbits)));
    WrittenIsReadable(file[3..], w.input, w.clears, maxbits);
  }

  /** Read back with buffers of the given sizes what was written in the given chunks: the bytes are the
      input's, in order, as far as the sizes go. */
  method RoundTripInPieces(bits: nat, chunks: seq<seq<Byte>>, sizes: seq<nat>, gotMagic: bool) returns (out: seq<Byte>)
    requires bits <= 16 && chunks != [] && chunks[0] != []
    ensures out == Concat(chunks)[..Min(Sum(sizes), |Concat(chunks)|)]
  {
    hide Readable, Decode, Pow2, Header, Concat, Reader.Valid, Reader.Within;
    var file, codes, maxbits, clears := Compress(bits, chunks);
    HeaderBytes(maxbits);
    assert file[..3] == [31, 157, maxbits + 128];
    var r := new Reader(file, gotMagic, codes, maxbits);
    ghost var input := Concat(chunks);
    out := [];
    var k := 0;
    while k < |sizes|
      invariant k <= |sizes| && r.Valid() && r.Total() == input
      invariant r.delivered == |out| == Min(Sum(sizes[..k]), |input|) && out == input[..|out|]
      invariant fresh(r) && fresh(r.buf) && fresh(r.stack) && fresh(r.tabPrefix) && fresh(r.tabSuffix)
    {
      var rbp := new Byte[sizes[k]];
      var n := r.Read(rbp, sizes[k]);
      SumSnoc(sizes, k);
      out := out + rbp[..n];
      k := k + 1;
    }
    assert sizes[..k] == sizes;
  }
}
