/** col's line buffer and the routine that prints it. */
module ColLine {
  import opened ColSort
  import opened ColRender

  class Line {
    var chars: seq<Entry>
    var maxCol: nat
    var needsSort: bool

    ghost predicate Valid()
      reads this
    {
      LineOk(chars, maxCol) && (!needsSort ==> Sorted(chars))
    }

    constructor ()
      ensures Valid() && chars == []
    {
      chars, maxCol, needsSort := [], 0, false;
    }

    /** The end of the input loop: a character is put on the line. */
    method Add(col: nat, cset: Cset, ch: char)
      requires Valid() && Graph(ch)
      modifies this
      ensures Valid() && chars == old(chars) + [Entry(col, cset, ch)]
      ensures maxCol == (if col < old(maxCol) then old(maxCol) else col) && needsSort == (old(needsSort) || col < old(maxCol))
    {
      chars := chars + [Entry(col, cset, ch)];
      if col < maxCol { needsSort := true; } else { maxCol := col; }
    }

    /** The input loop, as long as the input stays on one line. */
    method ReadLine(input: seq<char>, set0: Cset) returns (col: nat, cset: Cset)
      requires Valid() && chars == []
      requires OneLine(input)
      modifies this
      ensures Valid() && Reader(col, cset, chars) == ReadAll(Reader(0, set0, []), input)
    {
      col, cset := 0, set0;
      var i := 0;
      assert input[0..] == input;
      while i < |input|
        invariant i <= |input| && Valid()
        invariant ReadAll(Reader(col, cset, chars), input[i..]) == ReadAll(Reader(0, set0, []), input)
      {
        var ch := input[i];
        assert input[i..] == [ch] + input[i + 1..];
        ReadFirst(Reader(col, cset, chars), ch, input[i + 1..]);
        i := i + 1;
        if !Graph(ch) {
          if ch == BS {
            if col == 0 { continue; }
            col := col - 1;
          } else if ch == CR {
            col := 0;
          } else if ch == SPACE {
            col := col + 1;
          } else if ch == SI {
            cset := Normal;
          } else if ch == SO {
            cset := Alternate;
          } else if ch == TAB {
            col := col / 8 * 8 + 7;
            col := col + 1;
          }
          continue;
        }
        Add(col, cset, ch);
        col := col + 1;
      }
      assert input[|input|..] == [];
    }
  }

  /** The printer: what was written so far and the character set it left the terminal in. */
  class Printer {
    const compress: bool
    const noBackspaces: bool
    var out: seq<char>
    var lastSet: Cset

    constructor (compress: bool, noBackspaces: bool)
      ensures out == [] && lastSet == Normal && this.compress == compress && this.noBackspaces == noBackspaces
    {
      this.compress, this.noBackspaces := compress, noBackspaces;
      out, lastSet := [], Normal;
    }

    method PutTimes(c: char, n: nat)
      modifies this`out
      ensures out == old(out) + Repeat(c, n)
    {
      var i := n;
      while i > 0
        invariant 0 <= i <= n && out == old(out) + Repeat(c, n - i)
      {
        assert old(out) + (Repeat(c, n - i) + [c]) == old(out) + Repeat(c, n - i) + [c];
        out := out + [c];
        i := i - 1;
      }
    }

    /** Tabs and spaces from one column to a later one. */
    method PutGap(lastCol: nat, thisCol: nat)
      requires lastCol < thisCol
      modifies this`out
      ensures out == old(out) + Gap(lastCol, thisCol, compress)
    {
      var nspace := thisCol - lastCol;
      if compress && nspace > 1 {
        var ntabs := (lastCol % 8 + nspace) / 8;
        if ntabs > 0 {
          GapFits(lastCol, nspace);
          nspace := nspace - (ntabs * 8 - lastCol % 8);
          PutTimes(TAB, ntabs);
        }
      }
      PutTimes(SPACE, nspace);
    }

    method PutShift(cset: Cset)
      modifies this`out, this`lastSet
      ensures out == old(out) + Shift(old(lastSet), cset) && lastSet == cset
    {
      if cset != lastSet {
        out := out + [if cset == Normal then SI else SO];
        lastSet := cset;
      }
    }

    /** The characters of one column. */
    method PutStrikes(g: seq<Entry>)
      requires g != []
      modifies this`out, this`lastSet
      ensures out == old(out) + Strikes(g, old(lastSet)) && lastSet == g[|g| - 1].cset
    {
      var c := 0;
      assert g[0..] == g;
      while true
        invariant c < |g| && out + Strikes(g[c..], lastSet) == old(out) + Strikes(g, old(lastSet))
        decreases |g| - c
      {
        StrikesOne(g, c, lastSet);
        Strung(out, Shift(lastSet, g[c].cset), g[c].c, if c + 1 < |g| then Strikes(g[c + 1..], g[c].cset) else []);
        PutShift(g[c].cset);
        out := out + [g[c].c];
        c := c + 1;
        if c >= |g| { break; }
        out := out + [BS];
      }
    }

    lemma StrikesOne(g: seq<Entry>, c: nat, cset: Cset)
      requires c < |g|
      ensures Strikes(g[c..], cset)
              == Shift(cset, g[c].cset) + [g[c].c] + if c + 1 == |g| then [] else [BS] + Strikes(g[c + 1..], g[c].cset)
    {
      assert g[c..][1..] == g[c + 1..];
    }

    lemma Strung(out: seq<char>, shift: seq<char>, c: char, rest: seq<char>)
      ensures out + (shift + [c] + ([BS] + rest)) == out + shift + [c] + [BS] + rest
      ensures out + (shift + [c] + []) == out + shift + [c]
    {
    }

    /** The end of the column that starts at c. */
    method EndOfColumn(chars: array<Entry>, c: nat) returns (endc: nat)
      requires c < chars.Length
      ensures c < endc <= chars.Length && OneColumn(chars[c..endc]) && chars[c..endc][0] == chars[c]
      ensures endc < chars.Length ==> chars[endc].column != chars[c].column
    {
      endc := c + 1;
      while endc < chars.Length && chars[endc].column == chars[c].column
        invariant c < endc <= chars.Length
        invariant forall i :: c <= i < endc ==> chars[i].column == chars[c].column
      {
        endc := endc + 1;
      }
    }

    /** What is still to be printed. */
    ghost function Rest(s: seq<Entry>, col: nat, cset: Cset): seq<char> {
      Render(if noBackspaces then Lasts(s) else s, col, cset, compress)
    }

    lemma RestGroup(g: seq<Entry>, tail: seq<Entry>, col: nat, cset: Cset)
      requires g != [] && OneColumn(g) && (tail != [] ==> tail[0].column != g[0].column)
      ensures var h := if noBackspaces then [g[|g| - 1]] else g;
              Rest(g + tail, col, cset)
              == Move(col, g[0].column, compress) + Strikes(h, cset) + Rest(tail, g[0].column + 1, g[|g| - 1].cset)
    {
      hide Render, Lasts, Move, Strikes;
      assert g[|g| - 1].column == g[0].column;
      if noBackspaces {
        LastsGroup(g, tail);
        RenderGroup([g[|g| - 1]], Lasts(tail), col, cset, compress);
      } else {
        RenderGroup(g, tail, col, cset, compress);
      }
    }

    /** One column of flush_line's loop. */
    method PutColumn(chars: array<Entry>, c: nat, lastCol: nat) returns (endc: nat, col: nat)
      requires c < chars.Length && Sorted(chars[..]) && lastCol <= chars[c].column
      modifies this`out, this`lastSet
      ensures c < endc <= chars.Length && col == chars[c].column + 1
      ensures endc < chars.Length ==> col <= chars[endc].column
      ensures out + Rest(chars[endc..], col, lastSet) == old(out) + Rest(chars[c..], lastCol, old(lastSet))
      ensures LastSet(chars[endc..], lastSet) == LastSet(chars[c..], old(lastSet))
    {
      hide Gap, Strikes, Rest, Shift;
      var thisCol := chars[c].column;
      endc := EndOfColumn(chars, c);
      assert chars[c..] == chars[c..endc] + chars[endc..];
      ghost var g := chars[c..endc];
      RestGroup(g, chars[endc..], lastCol, lastSet);
      var from := if noBackspaces then endc - 1 else c;
      assert chars[from..endc] == if noBackspaces then [g[|g| - 1]] else g;
      Joined(out, Gap(lastCol, thisCol, compress), Strikes(chars[from..endc], lastSet), Rest(chars[endc..], thisCol + 1, g[|g| - 1].cset));
      if thisCol > lastCol { PutGap(lastCol, thisCol); } else { NoGap(thisCol); }
      col := thisCol + 1;
      PutStrikes(chars[from..endc]);
      if endc < chars.Length { assert chars[..][c].column <= chars[..][endc].column; }
    }

    lemma Joined(out: seq<char>, gap: seq<char>, strikes: seq<char>, rest: seq<char>)
      ensures out + gap + strikes + rest == out + (gap + strikes + rest)
      ensures gap == [] ==> out + gap == out
    {
    }

    lemma NoGap(col: nat)
      ensures Gap(col, col, compress) == []
    {
    }

    /** flush_line. */
    method FlushLine(l: Line)
      requires l.Valid()
      modifies this`out, this`lastSet
      ensures out == old(out) + Flushed(l.chars, l.maxCol, old(lastSet), compress, noBackspaces)
      ensures lastSet == LastSet(Ordered(l.chars, l.maxCol), old(lastSet))
    {
      var chars: array<Entry>;
      if l.needsSort {
        chars := CountingSort(l.chars, l.maxCol);
      } else {
        chars := new Entry[|l.chars|](i requires 0 <= i < |l.chars| reads l => l.chars[i]);
        assert chars[..] == l.chars;
        AlreadyOrdered(l.chars, l.maxCol);
      }
      OrderedOk(l.chars, l.maxCol);
      PutAll(chars);
    }

    method PutAll(chars: array<Entry>)
      requires Sorted(chars[..])
      modifies this`out, this`lastSet
      ensures out == old(out) + Rest(chars[..], 0, old(lastSet)) && lastSet == LastSet(chars[..], old(lastSet))
    {
      hide Sorted, Render, Lasts, Rest;
      var c: nat, lastCol: nat := 0, 0;
      assert chars[0..] == chars[..];
      while c < chars.Length
        invariant c <= chars.Length && (c < chars.Length ==> lastCol <= chars[c].column)
        invariant out + Rest(chars[c..], lastCol, lastSet) == old(out) + Rest(chars[..], 0, old(lastSet))
        invariant LastSet(chars[c..], lastSet) == LastSet(chars[..], old(lastSet))
      {
        c, lastCol := PutColumn(chars, c, lastCol);
      }
      assert chars[c..] == [];
      NothingLeft(lastCol, lastSet);
    }

    lemma NothingLeft(col: nat, cset: Cset)
      ensures Rest([], col, cset) == []
    {
    }
  }

  /** A line printed and read back: its characters stably sorted by column, or the last of each column when
      backspaces are left out; printed again, the same output. */
  method PrintAndRead(l: Line, compress: bool, noBackspaces: bool) returns (back: Line, cset: Cset, first: seq<char>, second: seq<char>)
    requires l.Valid()
    ensures fresh(back) && back.Valid() && cset == LastSet(Ordered(l.chars, l.maxCol), Normal)
    ensures var s := Ordered(l.chars, l.maxCol);
            Sorted(s) && SameColumns(s, l.chars) && back.chars == if noBackspaces then Lasts(s) else s
    ensures !noBackspaces ==> second == first
  {
    hide Columns, Lasts, Render, OneLine, Sorted, SameColumns;
    var p := new Printer(compress, noBackspaces);
    p.FlushLine(l);
    first := p.out;
    assert first == Flushed(l.chars, l.maxCol, Normal, compress, noBackspaces);
    FlushedStays(l.chars, l.maxCol, Normal, compress, noBackspaces);
    back := new Line();
    var col;
    col, cset := back.ReadLine(first, Normal);
    RoundTrip(l.chars, l.maxCol, Normal, compress, noBackspaces);
    ColumnsStable(l.chars, l.maxCol + 1);
    var q := new Printer(compress, noBackspaces);
    q.FlushLine(back);
    second := q.out;
    assert second == Flushed(back.chars, back.maxCol, Normal, compress, noBackspaces);
    if !noBackspaces { Idempotent(l.chars, l.maxCol, back.maxCol, Normal, compress); }
  }
}
