/** What each control code does to col's position, and how its printer crosses a gap. */
module ColCodes {
  import opened ColSort
  import opened ColRender

  /** Codes that move only: 8 goes one column back but not past the first, 13 to the first, 32 one column on, and 9 on
      to the next multiple of 8. */
  lemma ReadMoves(r: Reader)
    ensures Read(r, 8 as char) == Reader(if r.col == 0 then 0 else r.col - 1, r.cset, r.line)
    ensures Read(r, 13 as char) == Reader(0, r.cset, r.line)
    ensures Read(r, 32 as char) == Reader(r.col + 1, r.cset, r.line)
    ensures Read(r, 9 as char) == Reader(Read(r, 9 as char).col, r.cset, r.line)
    ensures Read(r, 9 as char).col % 8 == 0 && r.col < Read(r, 9 as char).col <= r.col + 8
  {
  }

  /** 15 and 14 choose the character set, 33 to 126 are put on the line, and whatever else has no meaning here does
      nothing. */
  lemma ReadOthers(r: Reader, n: nat)
    requires n < 256
    ensures Read(r, 15 as char) == Reader(r.col, Normal, r.line)
    ensures Read(r, 14 as char) == Reader(r.col, Alternate, r.line)
    ensures 33 <= n <= 126 ==> Read(r, n as char) == Reader(r.col + 1, r.cset, r.line + [Entry(r.col, r.cset, n as char)])
    ensures n !in {8, 9, 13, 14, 15} && (n < 32 || n > 126) ==> Read(r, n as char) == r
  {
  }

  /** The codes that would leave the line: newline, vertical tab and escape. */
  lemma LeavingCodes(out: seq<char>)
    ensures OneLine(out) <==> forall i :: 0 <= i < |out| ==> out[i] as int !in {10, 11, 27}
  {
  }

  lemma {:induction false} RepeatIs(c: char, n: nat)
    ensures |Repeat(c, n)| == n && forall i :: 0 <= i < n ==> Repeat(c, n)[i] == c
  {
    if n > 0 { RepeatIs(c, n - 1); }
  }

  /** How many tabs lie between two columns. */
  lemma TabsBetween(from: nat, to: nat)
    requires from <= to
    ensures (from % 8 + (to - from)) / 8 == to / 8 - from / 8
    ensures to / 8 > from / 8 ==> to - from - ((to / 8 - from / 8) * 8 - from % 8) == to % 8
  {
  }

  /** A gap is tabs and then spaces: one tab for every multiple of 8 passed and spaces for the rest, if tabs are asked
      for and the gap is wider than one column; spaces otherwise. */
  lemma GapIs(from: nat, to: nat, compress: bool)
    requires from <= to
    ensures var g, t := Gap(from, to, compress), if compress && to - from > 1 then to / 8 - from / 8 else 0;
            |g| == t + (if t > 0 then to % 8 else to - from)
            && (forall i :: 0 <= i < t && i < |g| ==> g[i] == 9 as char)
            && (forall i :: t <= i < |g| && 0 <= i ==> g[i] == 32 as char)
  {
    hide Repeat;
    TabsBetween(from, to);
    var t := if compress && to - from > 1 then to / 8 - from / 8 else 0;
    RepeatIs(TAB, t);
    RepeatIs(SPACE, if t > 0 then to % 8 else to - from);
    GapFits(from, to - from);
  }

  /** How long the printer's gap is. */
  function Cost(from: nat, to: nat): nat
    requires from <= to
  {
    if to / 8 > from / 8 then to / 8 - from / 8 + to % 8 else to - from
  }

  lemma CostStep(from: nat, next: nat, to: nat)
    requires next == from + 1 || next == from / 8 * 8 + 8
    requires next <= to
    ensures Cost(from, to) <= 1 + Cost(next, to)
  {
    var a, b := from / 8, to / 8;
    if next == from + 1 && next / 8 != a { assert next / 8 == a + 1 && next % 8 == 0; }
    if next == a * 8 + 8 { assert next / 8 == a + 1; }
  }

  lemma CostIs(from: nat, to: nat)
    requires from <= to
    ensures |Gap(from, to, true)| == Cost(from, to)
  {
    GapIs(from, to, true);
  }

  /** No other tabs and spaces lead across a gap in fewer characters. */
  lemma {:induction false} GapShortest(r: Reader, w: seq<char>)
    requires forall i :: 0 <= i < |w| ==> w[i] == TAB || w[i] == SPACE
    ensures r.col <= ReadAll(r, w).col && |Gap(r.col, ReadAll(r, w).col, true)| <= |w|
    decreases |w|
  {
    hide Gap;
    if w == [] {
      CostIs(r.col, r.col);
    } else {
      var next, to := Read(r, w[0]), ReadAll(r, w).col;
      GapShortest(next, w[1..]);
      CostStep(r.col, next.col, to);
      CostIs(r.col, to);
      CostIs(next.col, to);
    }
  }
}
