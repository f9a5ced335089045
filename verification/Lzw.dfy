/** The LZW code that compress/zopen.c implements, on values: the dictionary, the greedy encoder
    with its optional table clear, and the decoder that rebuilds the dictionary one entry late. */
module Lzw {
  import opened Bits

  const FIRST: nat := 257
  const CLEAR: nat := 256

  /** Entry j of a dictionary carries code FIRST + j. */
  datatype Entry = Entry(prefix: nat, suffix: Byte)

  /** c denotes a string when n entries exist; CLEAR never does. */
  predicate IsCode(c: nat, n: nat) {
    c < 256 || FIRST <= c < FIRST + n
  }

  predicate WellFormed(es: seq<Entry>) {
    forall j :: 0 <= j < |es| ==> IsCode(es[j].prefix, j)
  }

  predicate Distinct(es: seq<Entry>) {
    forall i, j :: 0 <= i < j < |es| ==> es[i] != es[j]
  }

  /** The string a code stands for. */
  function Expand(es: seq<Entry>, c: nat): (s: seq<Byte>)
    requires WellFormed(es) && IsCode(c, |es|)
    ensures s != []
  {
    if c < 256 then [c]
    else Expand(es, es[c - FIRST].prefix) + [es[c - FIRST].suffix]
  }

  lemma {:induction false} ExpandExtend(es: seq<Entry>, e: Entry, c: nat)
    requires WellFormed(es) && WellFormed(es + [e]) && IsCode(c, |es|)
    ensures Expand(es + [e], c) == Expand(es, c)
  {
    if c >= 256 { ExpandExtend(es, e, es[c - FIRST].prefix); }
  }

  /** No string is longer than the dictionary: what bounds the decoder's stack. */
  lemma {:induction false} ExpandBounded(es: seq<Entry>, c: nat)
    requires WellFormed(es) && IsCode(c, |es|)
    ensures |Expand(es, c)| <= (if c < 256 then 1 else c - FIRST + 2)
  {
    if c >= 256 { ExpandBounded(es, es[c - FIRST].prefix); }
  }

  // ---------------------------------------------------------------- encoder

  /** The codes sent so far, the code of the string being matched, and the dictionary. */
  datatype Encoder = Encoder(codes: seq<nat>, ent: nat, entries: seq<Entry>)

  function CodeOf(es: seq<Entry>, e: Entry): (c: nat)
    requires e in es
    ensures FIRST <= c < FIRST + |es| && es[c - FIRST] == e
  {
    if es[|es| - 1] == e then FIRST + |es| - 1 else CodeOf(es[..|es| - 1], e)
  }

  function Begin(b: Byte): Encoder {
    Encoder([], b, [])
  }

  /** One more input byte. `limit` is 2^maxbits; `clear` is the encoder's free choice to restart
      the dictionary, taken only when the dictionary is full. */
  function Feed(e: Encoder, b: Byte, clear: bool, limit: nat): Encoder {
    var next := Entry(e.ent, b);
    if next in e.entries then e.(ent := CodeOf(e.entries, next))
    else if FIRST + |e.entries| < limit then Encoder(e.codes + [e.ent], b, e.entries + [next])
    else if clear then Encoder(e.codes + [e.ent, CLEAR], b, [])
    else Encoder(e.codes + [e.ent], b, e.entries)
  }

  /** The encoder after a nonempty input, with one choice for every byte but the first. */
  function FeedAll(input: seq<Byte>, clears: seq<bool>, limit: nat): Encoder
    requires |input| == |clears| + 1
    decreases |clears|
  {
    if clears == [] then Begin(input[0])
    else
      var n := |clears| - 1;
      Feed(FeedAll(input[..n + 1], clears[..n], limit), input[n + 1], clears[n], limit)
  }

  lemma FeedAllSnoc(input: seq<Byte>, clears: seq<bool>, b: Byte, clear: bool, limit: nat)
    requires |input| == |clears| + 1
    ensures FeedAll(input + [b], clears + [clear], limit) == Feed(FeedAll(input, clears, limit), b, clear, limit)
  {
    assert (input + [b])[..|clears| + 1] == input;
    assert (clears + [clear])[..|clears|] == clears;
  }

  /** All codes of a finished stream. */
  function Finish(e: Encoder): seq<nat> {
    e.codes + [e.ent]
  }

  // ---------------------------------------------------------------- decoder

  /** Ready is the state before the first code and after CLEAR. */
  datatype Decoder =
    | Bad
    | Ready(out: seq<Byte>)
    | Running(out: seq<Byte>, entries: seq<Entry>, last: nat)

  predicate DecoderValid(d: Decoder) {
    d.Running? ==> WellFormed(d.entries) && IsCode(d.last, |d.entries|)
  }

  /** The string a code stands for in a running decoder; the code just past the table is the one
      whose entry the decoder has not completed yet. */
  function Meaning(d: Decoder, c: nat): (s: seq<Byte>)
    requires d.Running? && DecoderValid(d)
    requires IsCode(c, |d.entries| + 1)
    ensures s != []
  {
    if IsCode(c, |d.entries|) then Expand(d.entries, c)
    else
      var s := Expand(d.entries, d.last);
      s + [s[0]]
  }

  function DecodeStep(d: Decoder, c: nat, limit: nat): (d': Decoder)
    requires DecoderValid(d)
    ensures DecoderValid(d')
  {
    match d
    case Bad => Bad
    case Ready(out) => if c < 256 then Running(out + [c], [], c) else Bad
    case Running(out, es, last) =>
      if c == CLEAR then Ready(out)
      else if IsCode(c, |es|) || (c == FIRST + |es| && c < limit) then
        var s := Meaning(d, c);
        var es' := if FIRST + |es| < limit then es + [Entry(last, s[0])] else es;
        Running(out + s, es', c)
      else Bad
  }

  /** What a sequence of codes decodes to. */
  function Decode(codes: seq<nat>, limit: nat): (d: Decoder)
    ensures DecoderValid(d)
  {
    if codes == [] then Ready([])
    else DecodeStep(Decode(codes[..|codes| - 1], limit), codes[|codes| - 1], limit)
  }

  lemma DecodeSnoc(codes: seq<nat>, c: nat, limit: nat)
    ensures Decode(codes + [c], limit) == DecodeStep(Decode(codes, limit), c, limit)
  {
    assert (codes + [c])[..|codes|] == codes;
  }

  // ------------------------------------------------------------- round trip

  /** The encoder runs exactly one entry ahead of the decoder fed with the codes sent so far,
      and the input consumed is what those codes decode to plus the string being matched. */
  ghost predicate InStep(e: Encoder, input: seq<Byte>, limit: nat) {
    var d := Decode(e.codes, limit);
    && WellFormed(e.entries) && Distinct(e.entries) && IsCode(e.ent, |e.entries|)
    && !d.Bad?
    && input == d.out + Expand(e.entries, e.ent)
    && (d.Ready? ==> e.entries == [] && e.ent < 256)
    && (d.Running? ==>
          if FIRST + |d.entries| < limit
          then e.entries == d.entries + [Entry(d.last, Expand(e.entries, e.ent)[0])]
          else e.entries == d.entries)
  }

  /** Sending the current code makes the decoder catch up. */
  lemma {:induction false} SendCode(e: Encoder, input: seq<Byte>, limit: nat)
    requires InStep(e, input, limit)
    ensures var d := Decode(Finish(e), limit);
            d.Running? && d.out == input && d.last == e.ent && d.entries == e.entries
  {
    var d := Decode(e.codes, limit);
    DecodeSnoc(e.codes, e.ent, limit);
    if d.Running? && FIRST + |d.entries| < limit {
      var x := Entry(d.last, Expand(e.entries, e.ent)[0]);
      ExpandExtend(d.entries, x, d.last);
      if IsCode(e.ent, |d.entries|) {
        ExpandExtend(d.entries, x, e.ent);
      }
    }
  }

  lemma ExtendMatch(e: Encoder, input: seq<Byte>, b: Byte, limit: nat)
    requires InStep(e, input, limit) && Entry(e.ent, b) in e.entries
    ensures InStep(e.(ent := CodeOf(e.entries, Entry(e.ent, b))), input + [b], limit)
  {
    var c := CodeOf(e.entries, Entry(e.ent, b));
    var d := Decode(e.codes, limit);
    assert Expand(e.entries, c) == Expand(e.entries, e.ent) + [b];
    assert input + [b] == d.out + Expand(e.entries, c);
  }

  lemma AddEntry(e: Encoder, input: seq<Byte>, b: Byte, limit: nat)
    requires InStep(e, input, limit) && Entry(e.ent, b) !in e.entries
    requires FIRST + |e.entries| < limit
    ensures InStep(Encoder(Finish(e), b, e.entries + [Entry(e.ent, b)]), input + [b], limit)
  {
    SendCode(e, input, limit);
    assert Expand(e.entries + [Entry(e.ent, b)], b) == [b];
  }

  lemma KeepEntries(e: Encoder, input: seq<Byte>, b: Byte, limit: nat)
    requires InStep(e, input, limit) && FIRST + |e.entries| >= limit
    ensures InStep(Encoder(Finish(e), b, e.entries), input + [b], limit)
  {
    SendCode(e, input, limit);
    assert Expand(e.entries, b) == [b];
  }

  lemma DropEntries(e: Encoder, input: seq<Byte>, b: Byte, limit: nat)
    requires InStep(e, input, limit)
    ensures InStep(Encoder(Finish(e) + [CLEAR], b, []), input + [b], limit)
  {
    SendCode(e, input, limit);
    DecodeSnoc(Finish(e), CLEAR, limit);
    assert Expand([], b) == [b];
  }

  lemma FeedInStep(e: Encoder, input: seq<Byte>, b: Byte, clear: bool, limit: nat)
    requires InStep(e, input, limit)
    ensures InStep(Feed(e, b, clear, limit), input + [b], limit)
  {
    if Entry(e.ent, b) in e.entries {
      ExtendMatch(e, input, b, limit);
    } else if FIRST + |e.entries| < limit {
      AddEntry(e, input, b, limit);
    } else if clear {
      DropEntries(e, input, b, limit);
      assert Finish(e) + [CLEAR] == e.codes + [e.ent, CLEAR];
    } else {
      KeepEntries(e, input, b, limit);
    }
  }

  lemma BeginInStep(b: Byte, limit: nat)
    ensures InStep(Begin(b), [b], limit)
  {
    assert Expand([], b) == [b];
  }

  lemma {:induction false} FeedAllInStep(input: seq<Byte>, clears: seq<bool>, limit: nat)
    requires |input| == |clears| + 1
    ensures InStep(FeedAll(input, clears, limit), input, limit)
    decreases |clears|
  {
    hide InStep, Feed;
    if clears == [] {
      assert input == [input[0]];
      BeginInStep(input[0], limit);
    } else {
      var n := |clears| - 1;
      FeedAllInStep(input[..n + 1], clears[..n], limit);
      FeedInStep(FeedAll(input[..n + 1], clears[..n], limit), input[..n + 1], input[n + 1], clears[n], limit);
      assert input == input[..n + 1] + [input[n + 1]];
    }
  }

  /** Decoding what the encoder sends returns the input, whenever it chooses to clear. */
  lemma RoundTrip(input: seq<Byte>, clears: seq<bool>, limit: nat)
    requires |input| == |clears| + 1
    ensures var d := Decode(Finish(FeedAll(input, clears, limit)), limit);
            d.Running? && d.out == input
  {
    FeedAllInStep(input, clears, limit);
    SendCode(FeedAll(input, clears, limit), input, limit);
  }
}
