/** What col prints for a line and what it makes of it when it reads it back. */
module ColRender {
  import opened ColSort

  const BS: char := 8 as char
  const TAB: char := 9 as char
  const NL: char := 10 as char
  const VT: char := 11 as char
  const CR: char := 13 as char
  const SO: char := 14 as char
  const SI: char := 15 as char
  const ESC: char := 27 as char
  const SPACE: char := 32 as char

  /** isgraph in the C locale. */
  predicate Graph(c: char) {
    33 <= c as int <= 126
  }

  // -------------------------------------------------------------------- reading

  /** Where the input loop is and what it has put on the line. */
  datatype Reader = Reader(col: nat, cset: Cset, line: seq<Entry>)

  /** One character of input that stays on its line. */
  function Read(r: Reader, ch: char): Reader {
    if Graph(ch) then Reader(r.col + 1, r.cset, r.line + [Entry(r.col, r.cset, ch)])
    else if ch == BS then (if r.col == 0 then r else r.(col := r.col - 1))
    else if ch == CR then r.(col := 0)
    else if ch == SPACE then r.(col := r.col + 1)
    else if ch == SI then r.(cset := Normal)
    else if ch == SO then r.(cset := Alternate)
    else if ch == TAB then r.(col := r.col / 8 * 8 + 8)
    else r
  }

  function ReadAll(r: Reader, input: seq<char>): Reader
    decreases |input|
  {
    if input == [] then r else ReadAll(Read(r, input[0]), input[1..])
  }

  lemma ReadFirst(r: Reader, ch: char, rest: seq<char>)
    ensures ReadAll(r, [ch] + rest) == ReadAll(Read(r, ch), rest)
  {
    assert ([ch] + rest)[1..] == rest;
  }

  lemma {:induction false} ReadMore(r: Reader, a: seq<char>, b: seq<char>)
    ensures ReadAll(r, a + b) == ReadAll(ReadAll(r, a), b)
    decreases |a|
  {
    if a == [] {
      assert a + b == b;
    } else {
      assert (a + b)[1..] == a[1..] + b;
      ReadMore(Read(r, a[0]), a[1..], b);
    }
  }

  // ------------------------------------------------------------------- printing

  function Repeat(c: char, n: nat): seq<char> {
    if n == 0 then [] else Repeat(c, n - 1) + [c]
  }

  /** From one column to a later one, with tabs where that is asked for and more than one space is needed. */
  function Gap(from: nat, to: nat, compress: bool): seq<char>
    requires from <= to
  {
    var n := to - from;
    var tabs := if compress && n > 1 then (from % 8 + n) / 8 else 0;
    if tabs > 0 then GapFits(from, n); Repeat(TAB, tabs) + Repeat(SPACE, n - (tabs * 8 - from % 8)) else Repeat(SPACE, n)
  }

  lemma GapFits(from: nat, n: nat)
    ensures (from % 8 + n) / 8 > 0 ==> (from % 8 + n) / 8 * 8 - from % 8 <= n
  {
  }

  /** The shift to another character set. */
  function Shift(was: Cset, now: Cset): seq<char> {
    if was == now then [] else if now == Normal then [SI] else [SO]
  }

  /** The way to the next character: over a gap, or one back to strike over the last one. */
  function Move(col: nat, to: nat, compress: bool): seq<char> {
    if to < col then [BS] else Gap(col, to, compress)
  }

  /** The output for a sorted line, from the column after the last character printed. */
  function Render(s: seq<Entry>, col: nat, cset: Cset, compress: bool): seq<char>
    decreases |s|
  {
    if s == [] then []
    else
      Move(col, s[0].column, compress) + Shift(cset, s[0].cset) + [s[0].c]
      + Render(s[1..], s[0].column + 1, s[0].cset, compress)
  }

  // ----------------------------------------------------------------- round trip

  lemma {:induction false} ReadSpaces(r: Reader, n: nat)
    ensures ReadAll(r, Repeat(SPACE, n)) == r.(col := r.col + n)
  {
    if n > 0 {
      ReadSpaces(r, n - 1);
      ReadMore(r, Repeat(SPACE, n - 1), [SPACE]);
      ReadFirst(ReadAll(r, Repeat(SPACE, n - 1)), SPACE, []);
    }
  }

  lemma {:induction false} ReadTabs(r: Reader, n: nat)
    ensures ReadAll(r, Repeat(TAB, n)) == if n == 0 then r else r.(col := r.col / 8 * 8 + 8 * n)
  {
    if n > 0 {
      ReadTabs(r, n - 1);
      ReadMore(r, Repeat(TAB, n - 1), [TAB]);
      ReadFirst(ReadAll(r, Repeat(TAB, n - 1)), TAB, []);
      if n > 1 { TabStop(r.col, n - 1); }
    }
  }

  lemma TabStop(col: nat, n: nat)
    requires n > 0
    ensures (col / 8 * 8 + 8 * n) / 8 * 8 + 8 == col / 8 * 8 + 8 * (n + 1)
  {
    assert col / 8 * 8 + 8 * n == (col / 8 + n) * 8;
  }

  lemma GapSum(from: nat, n: nat, tabs: int)
    ensures from / 8 * 8 + 8 * tabs + (n - (tabs * 8 - from % 8)) == from + n
  {
  }

  lemma ReadTabsSpaces(r: Reader, tabs: nat, n: nat)
    requires tabs > 0 && tabs * 8 - r.col % 8 <= n
    ensures ReadAll(r, Repeat(TAB, tabs) + Repeat(SPACE, n - (tabs * 8 - r.col % 8))) == r.(col := r.col + n)
  {
    hide ReadAll, Repeat;
    var rest: nat := n - (tabs * 8 - r.col % 8);
    ReadMore(r, Repeat(TAB, tabs), Repeat(SPACE, rest));
    ReadTabs(r, tabs);
    ReadSpaces(r.(col := r.col / 8 * 8 + 8 * tabs), rest);
    GapSum(r.col, n, tabs);
  }

  lemma ReadGap(r: Reader, to: nat, compress: bool)
    requires r.col <= to
    ensures ReadAll(r, Gap(r.col, to, compress)) == r.(col := to)
  {
    hide ReadAll, Repeat;
    var n := to - r.col;
    var tabs := if compress && n > 1 then (r.col % 8 + n) / 8 else 0;
    if tabs > 0 {
      GapFits(r.col, n);
      ReadTabsSpaces(r, tabs, n);
    } else {
      ReadSpaces(r, n);
    }
  }

  lemma ReadMove(r: Reader, to: nat, compress: bool)
    requires r.col <= to + 1
    ensures ReadAll(r, Move(r.col, to, compress)) == r.(col := to)
  {
    if to < r.col { ReadFirst(r, BS, []); } else { ReadGap(r, to, compress); }
  }

  lemma ReadShift(r: Reader, now: Cset)
    ensures ReadAll(r, Shift(r.cset, now)) == r.(cset := now)
  {
    if r.cset != now { ReadFirst(r, if now == Normal then SI else SO, []); }
  }

  ghost predicate Printable(s: seq<Entry>) {
    forall i :: 0 <= i < |s| ==> Graph(s[i].c)
  }

  lemma ReadOne(r: Reader, e: Entry, rest: seq<char>, compress: bool)
    requires Graph(e.c) && r.col <= e.column + 1
    ensures ReadAll(r, Move(r.col, e.column, compress) + Shift(r.cset, e.cset) + [e.c] + rest)
            == ReadAll(Reader(e.column + 1, e.cset, r.line + [e]), rest)
  {
    hide Move, Shift, ReadAll;
    var a, b := Move(r.col, e.column, compress), Shift(r.cset, e.cset);
    assert a + b + [e.c] + rest == a + (b + ([e.c] + rest));
    ReadMore(r, a, b + ([e.c] + rest));
    ReadMove(r, e.column, compress);
    ReadMore(r.(col := e.column), b, [e.c] + rest);
    ReadShift(r.(col := e.column), e.cset);
    ReadFirst(Reader(e.column, e.cset, r.line), e.c, rest);
  }

  /** The character set after a line. */
  function LastSet(s: seq<Entry>, cset: Cset): Cset {
    if s == [] then cset else s[|s| - 1].cset
  }

  /** Reading what was printed for a sorted line puts the same characters on the line. */
  lemma {:induction false} RenderReads(s: seq<Entry>, r: Reader, compress: bool)
    requires Sorted(s) && Printable(s) && (s != [] ==> r.col <= s[0].column + 1)
    ensures ReadAll(r, Render(s, r.col, r.cset, compress)).line == r.line + s
    ensures ReadAll(r, Render(s, r.col, r.cset, compress)).cset == LastSet(s, r.cset)
    decreases |s|
  {
    hide Move, Shift, Render, ReadAll, Sorted;
    if s == [] {
      RenderNone(r, compress);
      assert r.line + s == r.line;
    } else {
      var e, rest := s[0], s[1..];
      assert s == [e] + rest;
      var next := Reader(e.column + 1, e.cset, r.line + [e]);
      RenderFirst(e, rest, r.col, r.cset, compress);
      ReadOne(r, e, Render(rest, e.column + 1, e.cset, compress), compress);
      SortedNext(s);
      RenderReads(rest, next, compress);
      assert r.line + [e] + rest == r.line + s;
    }
  }

  lemma RenderNone(r: Reader, compress: bool)
    ensures ReadAll(r, Render([], r.col, r.cset, compress)) == r
  {
  }

  lemma SortedNext(s: seq<Entry>)
    requires Sorted(s) && s != []
    ensures Sorted(s[1..]) && (|s| > 1 ==> s[0].column <= s[1..][0].column)
  {
  }

  lemma RenderFirst(e: Entry, rest: seq<Entry>, col: nat, cset: Cset, compress: bool)
    ensures Render([e] + rest, col, cset, compress)
            == Move(col, e.column, compress) + Shift(cset, e.cset) + [e.c] + Render(rest, e.column + 1, e.cset, compress)
  {
    assert ([e] + rest)[1..] == rest;
  }

  // ------------------------------------------------------------- without backspaces

  /** Only the last character of each column. */
  function Lasts(s: seq<Entry>): seq<Entry>
    decreases |s|
  {
    if |s| <= 1 then s
    else if s[0].column == s[1].column then Lasts(s[1..])
    else [s[0]] + Lasts(s[1..])
  }

  /** The order in which flush_line goes through a line. */
  function Ordered(line: seq<Entry>, maxCol: nat): seq<Entry> {
    Columns(line, maxCol + 1)
  }

  /** What flush_line prints. */
  function Flushed(line: seq<Entry>, maxCol: nat, cset: Cset, compress: bool, noBackspaces: bool): seq<char> {
    Render(if noBackspaces then Lasts(Ordered(line, maxCol)) else Ordered(line, maxCol), 0, cset, compress)
  }

  // -------------------------------------------------------------- column by column

  ghost predicate OneColumn(g: seq<Entry>) {
    forall i :: 0 <= i < |g| ==> g[i].column == g[0].column
  }

  /** The characters of one column struck over each other. */
  function Strikes(g: seq<Entry>, cset: Cset): seq<char>
    requires g != []
    decreases |g|
  {
    Shift(cset, g[0].cset) + [g[0].c] + if |g| == 1 then [] else [BS] + Strikes(g[1..], g[0].cset)
  }

  lemma StrikesFirst(e: Entry, rest: seq<Entry>, cset: Cset)
    ensures Strikes([e] + rest, cset) == Shift(cset, e.cset) + [e.c] + if rest == [] then [] else [BS] + Strikes(rest, e.cset)
  {
    assert ([e] + rest)[1..] == rest;
  }

  /** Rendering goes column by column. */
  lemma {:induction false} RenderGroup(g: seq<Entry>, tail: seq<Entry>, col: nat, cset: Cset, compress: bool)
    requires g != [] && OneColumn(g)
    ensures Render(g + tail, col, cset, compress)
            == Move(col, g[0].column, compress) + Strikes(g, cset) + Render(tail, g[0].column + 1, g[|g| - 1].cset, compress)
    decreases |g|
  {
    hide Move, Shift, Render, Strikes;
    var e, rest := g[0], g[1..];
    assert g == [e] + rest && g + tail == [e] + (rest + tail);
    RenderFirst(e, rest + tail, col, cset, compress);
    StrikesFirst(e, rest, cset);
    if rest != [] {
      RenderGroup(rest, tail, e.column + 1, e.cset, compress);
      Regroup(Move(col, e.column, compress), Shift(cset, e.cset), [e.c], [BS], Strikes(rest, e.cset),
              Render(tail, e.column + 1, g[|g| - 1].cset, compress));
      MoveBack(e.column, compress);
    } else {
      assert rest + tail == tail;
      Straight(Move(col, e.column, compress), Shift(cset, e.cset), [e.c], Render(tail, e.column + 1, e.cset, compress));
    }
  }

  lemma Straight(a: seq<char>, b: seq<char>, c: seq<char>, f: seq<char>)
    ensures a + b + c + f == a + (b + c + []) + f
  {
  }

  lemma MoveBack(col: nat, compress: bool)
    ensures Move(col + 1, col, compress) == [BS]
  {
  }

  lemma Regroup(a: seq<char>, b: seq<char>, c: seq<char>, d: seq<char>, e: seq<char>, f: seq<char>)
    ensures a + b + c + (d + e + f) == a + (b + c + (d + e)) + f
  {
  }

  lemma {:induction false} LastsGroup(g: seq<Entry>, tail: seq<Entry>)
    requires g != [] && OneColumn(g) && (tail != [] ==> tail[0].column != g[0].column)
    ensures Lasts(g + tail) == [g[|g| - 1]] + Lasts(tail)
    decreases |g|
  {
    if |g| > 1 {
      assert (g + tail)[1..] == g[1..] + tail;
      LastsGroup(g[1..], tail);
    } else {
      assert (g + tail)[1..] == tail && g == [g[0]];
    }
  }

  lemma {:induction false} LastsSorted(s: seq<Entry>)
    requires Sorted(s) && Printable(s)
    ensures Sorted(Lasts(s)) && Printable(Lasts(s))
    ensures s == [] <==> Lasts(s) == []
    ensures s != [] ==> Lasts(s)[0].column == s[0].column && Lasts(s)[|Lasts(s)| - 1] == s[|s| - 1]
    decreases |s|
  {
    if |s| > 1 { LastsSorted(s[1..]); }
  }

  /** Without backspaces each column keeps its last character. */
  lemma {:induction false} LastsAre(s: seq<Entry>, col: nat)
    requires Sorted(s)
    ensures InColumn(Lasts(s), col) == if InColumn(s, col) == [] then [] else [InColumn(s, col)[|InColumn(s, col)| - 1]]
    decreases |s|
  {
    hide InColumn, Sorted;
    if s == [] {
      InColumnNone(col);
    } else if |s| == 1 {
      InColumnOne(s[0], col);
      assert s == [s[0]];
    } else {
      SortedTail(s);
      LastsAre(s[1..], col);
      InColumnOne(s[0], col);
      assert s == [s[0]] + s[1..];
      InColumnAppend([s[0]], s[1..], col);
      if s[0].column == s[1].column {
        if s[0].column == col { Occurs(s[1..], 0); }
      } else {
        InColumnAppend([s[0]], Lasts(s[1..]), col);
        if s[0].column == col { LaterNone(s); }
      }
    }
  }

  lemma InColumnOne(e: Entry, col: nat)
    ensures InColumn([e], col) == if e.column == col then [e] else []
  {
    assert [e][..0] == [];
  }

  lemma SortedTail(s: seq<Entry>)
    requires Sorted(s) && s != []
    ensures Sorted(s[1..])
  {
  }

  lemma LaterNone(s: seq<Entry>)
    requires Sorted(s) && |s| > 1 && s[0].column != s[1].column
    ensures InColumn(s[1..], s[0].column) == []
  {
    var t := s[1..];
    if InColumn(t, s[0].column) != [] { var i := SomeIn(t, s[0].column); }
  }

  lemma {:induction false} SomeIn(s: seq<Entry>, col: nat) returns (i: nat)
    requires InColumn(s, col) != []
    ensures i < |s| && s[i].column == col
  {
    if s[|s| - 1].column == col { i := |s| - 1; } else { i := SomeIn(s[..|s| - 1], col); }
  }

  // --------------------------------------------------------------------- whole lines

  /** What the input loop's line keeps true. */
  ghost predicate LineOk(line: seq<Entry>, maxCol: nat) {
    Below(line, maxCol + 1) && Printable(line)
  }

  lemma OrderedOk(line: seq<Entry>, maxCol: nat)
    requires LineOk(line, maxCol)
    ensures Sorted(Ordered(line, maxCol)) && Printable(Ordered(line, maxCol)) && LineOk(Ordered(line, maxCol), maxCol)
  {
    ColumnsSorted(line, maxCol + 1);
    ColumnsPrintable(line, maxCol + 1);
  }

  lemma {:induction false} InColumnPrintable(s: seq<Entry>, col: nat)
    requires Printable(s)
    ensures Printable(InColumn(s, col))
  {
    if s != [] { InColumnPrintable(s[..|s| - 1], col); }
  }

  lemma {:induction false} ColumnsPrintable(s: seq<Entry>, k: nat)
    requires Printable(s)
    ensures Printable(Columns(s, k))
  {
    if k > 0 {
      ColumnsPrintable(s, k - 1);
      InColumnPrintable(s, k - 1);
    }
  }

  /** Reading a printed line back gives its characters, stably sorted by column; with backspaces left out,
      the last character of each column. Reader and printer agree on the character set afterwards. */
  lemma RoundTrip(line: seq<Entry>, maxCol: nat, cset: Cset, compress: bool, noBackspaces: bool)
    requires LineOk(line, maxCol)
    ensures var back := ReadAll(Reader(0, cset, []), Flushed(line, maxCol, cset, compress, noBackspaces)).line;
            back == if noBackspaces then Lasts(Ordered(line, maxCol)) else Ordered(line, maxCol)
    ensures ReadAll(Reader(0, cset, []), Flushed(line, maxCol, cset, compress, noBackspaces)).cset == LastSet(Ordered(line, maxCol), cset)
  {
    hide Columns, Sorted, Lasts, Render, ReadAll, Printable, LineOk;
    OrderedOk(line, maxCol);
    LastsSorted(Ordered(line, maxCol));
    var s := if noBackspaces then Lasts(Ordered(line, maxCol)) else Ordered(line, maxCol);
    RenderReads(s, Reader(0, cset, []), compress);
  }

  /** A sorted line is printed as it stands. */
  lemma AlreadyOrdered(line: seq<Entry>, maxCol: nat)
    requires LineOk(line, maxCol) && Sorted(line)
    ensures Ordered(line, maxCol) == line
  {
    ColumnsStable(line, maxCol + 1);
    StableUnique(line, Ordered(line, maxCol));
  }

  /** Printing what was read back prints the same again. */
  lemma Idempotent(line: seq<Entry>, maxCol: nat, again: nat, cset: Cset, compress: bool)
    requires LineOk(line, maxCol)
    requires LineOk(ReadAll(Reader(0, cset, []), Flushed(line, maxCol, cset, compress, false)).line, again)
    ensures var out := Flushed(line, maxCol, cset, compress, false);
            Flushed(ReadAll(Reader(0, cset, []), out).line, again, cset, compress, false) == out
  {
    hide Columns, Sorted, Lasts;
    RoundTrip(line, maxCol, cset, compress, false);
    OrderedOk(line, maxCol);
    AlreadyOrdered(Ordered(line, maxCol), again);
  }

  // --------------------------------------------------------------- on one line

  /** No character moves to another line. */
  predicate OneLine(out: seq<char>) {
    forall i :: 0 <= i < |out| ==> out[i] != NL && out[i] != VT && out[i] != ESC
  }

  lemma {:induction false} RepeatStays(c: char, n: nat)
    requires c != NL && c != VT && c != ESC
    ensures OneLine(Repeat(c, n))
  {
    if n > 0 { RepeatStays(c, n - 1); }
  }

  lemma MoveStays(col: nat, to: nat, compress: bool)
    ensures OneLine(Move(col, to, compress))
  {
    hide Repeat;
    if to >= col {
      var n := to - col;
      var tabs := if compress && n > 1 then (col % 8 + n) / 8 else 0;
      RepeatStays(TAB, tabs);
      GapFits(col, n);
      RepeatStays(SPACE, if tabs > 0 then n - (tabs * 8 - col % 8) else n);
    }
  }

  lemma OneStays(a: seq<char>, b: seq<char>, c: char, d: seq<char>)
    requires OneLine(a) && OneLine(b) && Graph(c) && OneLine(d)
    ensures OneLine(a + b + [c] + d)
  {
  }

  lemma {:induction false} RenderStays(s: seq<Entry>, col: nat, cset: Cset, compress: bool)
    requires Printable(s)
    ensures OneLine(Render(s, col, cset, compress))
    decreases |s|
  {
    hide Move, OneLine;
    if s == [] {
      NothingStays();
    } else {
      var e := s[0];
      MoveStays(col, e.column, compress);
      ShiftStays(cset, e.cset);
      RenderStays(s[1..], e.column + 1, e.cset, compress);
      OneStays(Move(col, e.column, compress), Shift(cset, e.cset), e.c, Render(s[1..], e.column + 1, e.cset, compress));
    }
  }

  lemma NothingStays()
    ensures OneLine([])
  {
  }

  lemma ShiftStays(was: Cset, now: Cset)
    ensures OneLine(Shift(was, now))
  {
  }

  /** What is printed for a line stays on it. */
  lemma FlushedStays(line: seq<Entry>, maxCol: nat, cset: Cset, compress: bool, noBackspaces: bool)
    requires LineOk(line, maxCol)
    ensures OneLine(Flushed(line, maxCol, cset, compress, noBackspaces))
  {
    hide Columns, Sorted, Lasts, Render, OneLine;
    OrderedOk(line, maxCol);
    LastsSorted(Ordered(line, maxCol));
    RenderStays(if noBackspaces then Lasts(Ordered(line, maxCol)) else Ordered(line, maxCol), 0, cset, compress);
  }
}
