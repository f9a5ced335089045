/** The three matchers of awk/b.c over the lazily built automaton, and what they decide. */
module ReMatch {
  import opened ReTree
  import opened ReSets
  import opened ReHat
  import opened ReAutomaton

  /** A C string's characters. */
  predicate Text(p: seq<int>) {
    forall i :: 0 <= i < |p| ==> 0 < p[i] < 256
  }

  /** The character at i, NUL past the end. */
  function CharAt(p: seq<int>, i: nat): int {
    if i < |p| then p[i] else 0
  }

  /** The string with its NUL. */
  function Ended0(p: seq<int>): seq<int> {
    p + [0]
  }

  lemma RanStep(r: Re, anchored: bool, s: set<nat>, z: seq<int>, i: nat, j: nat)
    requires i <= j < |z|
    ensures Ran(r, anchored, s, z[i..j + 1]) == Turn(r, anchored, Ran(r, anchored, s, z[i..j]), z[j])
  {
    assert z[i..j + 1][..j - i] == z[i..j];
  }

  /** Only state 3 has the positions of the hat state. */
  lemma HatStateIsThree(f: Fa, anchored: bool, s: nat)
    requires f.Ready(anchored) && NewHat(f.r) && 1 <= s <= f.curstat && f.State(s) == HatState(f.r, anchored)
    ensures s == 3
  {
    hide HatState, NewHat, Cached, Fa.Rows, Cell;
    f.StateRow(s);
    f.StateRow(3);
    SameList(f.posns[s], f.posns[3]);
  }

  /** What a cached entry is worth. */
  lemma CachedTurn(f: Fa, anchored: bool, s: nat, c: nat)
    requires f.Ready(anchored) && 1 <= s <= f.curstat && c < NCHARS
    ensures Cell(s, c) < TABLE && |f.gototab| == TABLE
    ensures var v := f.gototab[Cell(s, c)];
            if v == 0 then Turn(f.r, anchored, f.State(s), c) == Step(f.r, f.State(s), c) && (NewHat(f.r) ==> Cell(s, c) != Cell(3, STRAY))
            else 1 <= v <= f.curstat && f.State(v) == Turn(f.r, anchored, f.State(s), c)
  {
    hide HatState, NewHat, Step, Fa.Rows, Cell;
    f.StateRow(s);
    Cells(s, c, 3, STRAY);
    assert EntryOk(f.r, f.posns, s, c, f.gototab[Cell(s, c)]);
    if NewHat(f.r) && f.State(s) == HatState(f.r, anchored) { HatStateIsThree(f, anchored, s); }
  }

  /** cgoto on a letter leaves the start states, and the stray entry, as they are. */
  lemma ReadyKept(f: Fa, anchored: bool, posns: seq<seq<nat>>, tab: seq<int>, curstat: nat, at: nat, v: nat)
    requires f.Valid() && 2 <= f.initstat <= curstat <= f.curstat && |posns| == curstat + 1 && posns == f.posns[..curstat + 1]
    requires Elems(posns[2]) == (if anchored then Start(f.r) - {0} else Start(f.r)) && Elems(posns[f.initstat]) == HatState(f.r, anchored)
    requires |tab| == TABLE && if NewHat(f.r) then f.initstat == 3 && Cell(3, STRAY) < TABLE && tab[Cell(3, STRAY)] == 3 else f.initstat == 2
    requires at < TABLE && (NewHat(f.r) ==> at != Cell(3, STRAY))
    requires f.gototab == tab || f.gototab == tab[at := v]
             || (f.curstat > curstat && f.gototab == Cleared(tab, f.curstat, NCHARS)[at := v])
    ensures f.Ready(anchored)
  {
    hide HatState, NewHat, Step, Fa.Rows, Fa.States, Cell, Cleared, Start;
    f.StatesShape();
    if NewHat(f.r) { ClearedCell(tab, f.curstat, 3, STRAY); }
  }

  /** One transition: cached, or made now. 0 means the table is full. */
  method Advance(f: Fa, ghost anchored: bool, s: nat, c: int) returns (ns: nat)
    requires f.Ready(anchored) && 1 <= s <= f.curstat && 0 <= c < NCHARS
    modifies f`posns, f`gototab, f`out, f`curstat, f`full, f.work
    ensures f.Ready(anchored) && old(f.curstat) <= f.curstat && f.posns[..old(f.curstat) + 1] == old(f.posns)
    ensures ns == 0 ==> f.full && f.curstat == NSTATES - 1
    ensures ns != 0 ==> ns <= f.curstat && f.State(ns) == Turn(f.r, anchored, old(f.State(s)), c)
  {
    hide Step, Fa.States, Fa.Rows, SymAt, Cell, Cleared, Turn, Start, HatState, NewHat;
    f.StatesShape();
    CachedTurn(f, anchored, s, c);
    ns := f.gototab[Cell(s, c)];
    if ns == 0 {
      ghost var posns, tab, curstat := f.posns, f.gototab, f.curstat;
      ns := f.Cgoto(s, c);
      f.StatesShape();
      ReadyKept(f, anchored, posns, tab, curstat, Cell(s, c), ns);
    }
  }

  // ------------------------------------------------------------------- match

  /** Reading w from the hatted start state reaches FINAL just when hat and w hold a word of r at the end. */
  lemma MatchMeaning(r: Re, w: seq<int>)
    requires Parsed(r) && NoEnd(w)
    ensures Accept(r) in Run(r, Hatted(r), w) <==> SomewhereIn(r, [HAT] + w)
  {
    hide Run, Step, In, Lang, Start, SomewhereIn, Root, First, Nullable;
    HattedParts(r);
    StartIsFirst(r);
    RunAccepts(r, Hatted(r), w);
    StepMeaning(r, Start(r), HAT, w + [END]);
    StartMeaning(r, [HAT] + (w + [END]));
    assert [HAT] + (w + [END]) == ([HAT] + w) + [END];
    RootLang(r, [HAT] + w);
  }

  /** The automaton has seen a match within the first n characters. */
  ghost predicate SeenBy(r: Re, z: seq<int>, n: nat)
    requires n <= |z|
  {
    exists k :: 0 <= k <= n && Accept(r) in Ran(r, false, Hatted(r), z[..k])
  }

  /** match: is there a match anywhere. A false `ok` says that the state table filled up. */
  method Match(f: Fa, p: seq<int>) returns (ok: bool, found: bool)
    requires f.Ready(false) && Text(p)
    modifies f`posns, f`gototab, f`out, f`curstat, f`full, f.work
    ensures f.Ready(false) && f.r == old(f.r)
    ensures !ok ==> f.full && f.curstat == NSTATES - 1
    ensures ok ==> (found <==> SeenBy(f.r, Ended0(p), |p| + 1))
  {
    hide Turn, StateOk, Cached, Apart, RowsRight, SymAt, Hatted, Start, Ran, Cell, NewHat;
    var s := f.initstat;
    ghost var r, z := f.r, Ended0(p);
    f.KnownState(s);
    RanNone(r, false, Hatted(r), z);
    if f.out[s] {
      assert Accept(r) in Ran(r, false, Hatted(r), z[..0]);
      return true, true;
    }
    var i := 0;
    while i <= |p|
      invariant 0 <= i <= |p| + 1 && f.Ready(false) && f.r == r && 1 <= s <= f.curstat
      invariant f.State(s) == Ran(r, false, Hatted(r), z[..i]) && !SeenBy(r, z, i)
    {
      var c := CharAt(p, i);
      RanStep(r, false, Hatted(r), z, 0, i);
      var ns := Advance(f, false, s, c);
      if ns == 0 {
        return false, false;
      }
      s := ns;
      f.KnownState(s);
      i := i + 1;
      if f.out[s] {
        assert Accept(r) in Ran(r, false, Hatted(r), z[..i]);
        return true, true;
      }
    }
    ok, found := true, false;
  }

  lemma RanNone(r: Re, anchored: bool, s: set<nat>, z: seq<int>)
    ensures Ran(r, anchored, s, z[..0]) == s
  {
  }

  // --------------------------------------------------------- matches at one start

  /** The state a try at position i begins in. */
  function Opening(r: Re, i: nat): set<nat> {
    if i == 0 then Hatted(r) - {0} else Start(r) - {0}
  }

  /** A word of r at position i; at the start of the string the hat may come first. */
  ghost predicate WordAt(r: Re, i: nat, w: seq<int>) {
    Lang(r, w) || (i == 0 && Lang(r, [HAT] + w))
  }

  lemma OpeningMeaning(r: Re, i: nat, w: seq<int>)
    requires Parsed(r) && NoEnd(w)
    ensures Accept(r) in Run(r, Opening(r, i), w) <==> WordAt(r, i, w)
  {
    hide Run, Step, In, Lang, Start, Hatted, Root, First, Nullable;
    HattedParts(r);
    StartIsFirst(r);
    RunAccepts(r, Opening(r, i), w);
    if i == 0 {
      AnchoredHatted(r, w + [END]);
      assert ([HAT] + (w + [END]))[..|w| + 1] == [HAT] + w;
    } else {
      AnchoredStart(r, w + [END]);
    }
    assert (w + [END])[..|w|] == w;
  }

  /** The first m characters from i on, NUL included, take the automaton to FINAL. */
  predicate Reaches(r: Re, z: seq<int>, i: nat, m: nat)
    requires i + m <= |z|
  {
    Accept(r) in Ran(r, true, Opening(r, i), z[i..i + m])
  }

  /** A match of length n at i: the characters themselves, or, at the end of the string, with the NUL
      that $ takes. */
  predicate Hits(r: Re, z: seq<int>, i: nat, n: nat) {
    i + n < |z| && (Reaches(r, z, i, n) || (i + n + 1 == |z| && Reaches(r, z, i, n + 1)))
  }

  /** Once no position is left, nothing more is reached. */
  lemma {:induction false} DeadStays(r: Re, z: seq<int>, i: nat, m: nat, n: nat)
    requires i + m <= i + n <= |z| && Ran(r, true, Opening(r, i), z[i..i + m]) == {}
    ensures Ran(r, true, Opening(r, i), z[i..i + n]) == {}
    decreases n
  {
    hide Turn, Opening;
    if m < n {
      DeadStays(r, z, i, m, n - 1);
      RanStep(r, true, Opening(r, i), z, i, i + n - 1);
      DeadTurn(r, z[i + n - 1]);
    }
  }

  lemma DeadTurn(r: Re, c: int)
    ensures Turn(r, true, {}, c) == {}
  {
  }

  /** What a try at i has found once m lengths are tested: the longest hit so far, if any. */
  ghost predicate BestSoFar(r: Re, z: seq<int>, i: nat, m: nat, hit: bool, len: int)
    requires i + m <= |z|
  {
    && (hit ==> 0 <= len < m && Reaches(r, z, i, len))
    && forall n :: 0 <= n < m && Reaches(r, z, i, n) ==> hit && n <= len
  }

  /** The answer of one try. */
  ghost predicate Tried(r: Re, z: seq<int>, i: nat, hit: bool, len: int) {
    && (hit ==> 0 <= len && Hits(r, z, i, len))
    && forall n :: 0 <= n && Hits(r, z, i, n) ==> hit && n <= len
  }

  /** A dead state ends the try with what it has. */
  lemma DeadDecides(r: Re, z: seq<int>, i: nat, m: nat, hit: bool, len: int)
    requires i + m < |z| && BestSoFar(r, z, i, m + 1, hit, len)
    requires Ran(r, true, Opening(r, i), z[i..i + m + 1]) == {}
    ensures Tried(r, z, i, hit, len)
  {
    hide Ran, Opening;
    forall n | 0 <= n && Hits(r, z, i, n) ensures hit && n <= len {
      if n > m { DeadStays(r, z, i, m + 1, n); }
      if i + n + 1 == |z| { DeadStays(r, z, i, m + 1, n + 1); }
    }
  }

  /** At the end of the string the NUL may still complete a match of the same length. */
  lemma EndDecides(r: Re, z: seq<int>, i: nat, m: nat, hit: bool, len: int, last: bool)
    requires i + m == |z| && m > 0 && BestSoFar(r, z, i, m, hit, len) && (last <==> Reaches(r, z, i, m))
    ensures Tried(r, z, i, hit || last, if last then m - 1 else len)
  {
    hide Ran, Opening, Reaches;
  }

  /** One try: run from state s0 at position i until the state is dead or the string ends. `len` comes in as
      patlen and is set to the longest length found. */
  method Try(f: Fa, s0: nat, p: seq<int>, i: nat, len0: int) returns (ok: bool, len: int, ghost hit: bool)
    requires f.Ready(true) && Text(p) && i <= |p| && 1 <= s0 <= f.curstat && f.State(s0) == Opening(f.r, i)
    modifies f`posns, f`gototab, f`out, f`curstat, f`full, f.work
    ensures f.Ready(true) && f.r == old(f.r)
    ensures !ok ==> f.full && f.curstat == NSTATES - 1
    ensures ok ==> Tried(f.r, Ended0(p), i, hit, len) && (!hit ==> len == len0)
  {
    hide Turn, StateOk, Cached, Apart, RowsRight, SymAt, Hatted, Start, Ran, Opening, Cell, NewHat;
    ghost var r, z := f.r, Ended0(p);
    ok, len, hit := true, len0, false;
    var s, q := s0, i;
    EmptyRun(r, z, i);
    f.KnownState(s);
    while q <= |p|
      invariant i <= q <= |p| + 1 && f.Ready(true) && f.r == r && 1 <= s <= f.curstat
      invariant f.State(s) == Ran(r, true, Opening(r, i), z[i..q])
      invariant BestSoFar(r, z, i, q - i, hit, len) && (!hit ==> len == len0)
    {
      f.KnownState(s);
      if f.out[s] {
        len, hit := q - i, true;
      }
      assert BestSoFar(r, z, i, q - i + 1, hit, len);
      RanStep(r, true, Opening(r, i), z, i, q);
      s := Advance(f, true, s, CharAt(p, q));
      if s == 0 {
        ok := false;
        return;
      }
      if s == 1 {
        DeadDecides(r, z, i, q - i, hit, len);
        return;
      }
      q := q + 1;
    }
    f.KnownState(s);
    EndDecides(r, z, i, q - i, hit, len, f.out[s]);
    if f.out[s] {
      len, hit := q - i - 1, true;
    }
  }

  lemma EmptyRun(r: Re, z: seq<int>, i: nat)
    requires i <= |z|
    ensures Ran(r, true, Opening(r, i), z[i..i]) == Opening(r, i)
  {
  }

  // -------------------------------------------------------- pmatch and nematch

  /** pmatch: the leftmost start with a match, and the longest match there. */
  method Pmatch(f: Fa, p: seq<int>) returns (ok: bool, found: bool, patbeg: nat, patlen: int)
    requires f.Ready(true) && Text(p)
    modifies f`posns, f`gototab, f`out, f`curstat, f`full, f.work
    ensures f.Ready(true) && f.r == old(f.r)
    ensures !ok ==> f.full && f.curstat == NSTATES - 1
    ensures ok && found ==> patbeg <= |p| && 0 <= patlen && Hits(f.r, Ended0(p), patbeg, patlen)
    ensures ok && found ==> forall n :: 0 <= n && Hits(f.r, Ended0(p), patbeg, n) ==> n <= patlen
    ensures ok ==> forall i, n :: 0 <= i < (if found then patbeg else |p| + 1) && 0 <= n ==> !Hits(f.r, Ended0(p), i, n)
  {
    hide Turn, StateOk, Cached, Apart, RowsRight, SymAt, Hatted, Start, Ran, Hits, Cell, NewHat;
    ghost var r, z := f.r, Ended0(p);
    ghost var hit;
    var s, i := f.initstat, 0;
    ok, found, patbeg, patlen := true, false, 0, -1;
    while i <= |p|
      invariant 0 <= i <= |p| + 1 && f.Ready(true) && f.r == r && 1 <= s <= f.curstat && f.State(s) == Opening(r, i)
      invariant patlen == -1
      invariant forall j, n :: 0 <= j < i && 0 <= n ==> !Hits(r, z, j, n)
    {
      ok, patlen, hit := Try(f, s, p, i, patlen);
      if !ok {
        return;
      }
      if patlen >= 0 {
        patbeg := i;
        found := true;
        return;
      }
      s := 2;
      i := i + 1;
    }
  }

  /** nematch: the same over nonempty matches. */
  method Nematch(f: Fa, p: seq<int>) returns (ok: bool, found: bool, patbeg: nat, patlen: int)
    requires f.Ready(true) && Text(p)
    modifies f`posns, f`gototab, f`out, f`curstat, f`full, f.work
    ensures f.Ready(true) && f.r == old(f.r)
    ensures !ok ==> f.full && f.curstat == NSTATES - 1
    ensures ok && found ==> patbeg < |p| && 0 < patlen && Hits(f.r, Ended0(p), patbeg, patlen)
    ensures ok && found ==> forall n :: 0 < n && Hits(f.r, Ended0(p), patbeg, n) ==> n <= patlen
    ensures ok ==> forall i, n :: 0 <= i < (if found then patbeg else |p| + 1) && 0 < n ==> !Hits(f.r, Ended0(p), i, n)
  {
    hide Turn, StateOk, Cached, Apart, RowsRight, SymAt, Hatted, Start, Ran, Hits, Cell, NewHat;
    ghost var r, z := f.r, Ended0(p);
    ghost var hit;
    var s, i := f.initstat, 0;
    ok, found, patbeg, patlen := true, false, 0, -1;
    while i < |p|
      invariant 0 <= i <= |p| && f.Ready(true) && f.r == r && 1 <= s <= f.curstat && f.State(s) == Opening(r, i)
      invariant patlen <= 0
      invariant forall j, n :: 0 <= j < i && 0 < n ==> !Hits(r, z, j, n)
    {
      ok, patlen, hit := Try(f, s, p, i, patlen);
      if !ok {
        return;
      }
      if patlen > 0 {
        patbeg := i;
        found := true;
        return;
      }
      s := 2;
      i := i + 1;
    }
    forall j, n | 0 <= j < |p| + 1 && 0 < n ensures !Hits(r, z, j, n) {
      if j == |p| { NothingAtEnd(r, p); }
    }
  }

  lemma NothingAtEnd(r: Re, p: seq<int>)
    ensures forall n :: 0 < n ==> !Hits(r, Ended0(p), |p|, n)
  {
  }

  // ------------------------------------------------------------- in plain terms

  /** A match of length n at i, in the terms of the expression's own language: ^ is the letter HAT before the
      string, $ the NUL after it. */
  ghost predicate MatchAt(s: Re, p: seq<int>, i: nat, n: nat) {
    i + n <= |p| && (WordAt(s, i, p[i..i + n]) || (i + n == |p| && WordAt(s, i, p[i..] + [0])))
  }

  /** What a caller can check beforehand: the text holds no byte 2, or the hat's stray entry does no harm. */
  predicate Sure(s: Re, anchored: bool, p: seq<int>) {
    STRAY !in p || Harmless(Renumber(s, 1), anchored)
  }

  /** No ^ in the expression, no harm. */
  lemma SureWithoutHat(s: Re, anchored: bool, p: seq<int>)
    requires NoFinal(s) && HatFree(s)
    ensures Sure(s, anchored, p)
  {
    RenumberIsNumbered(s, 1);
    RenumberHatFree(s, 1);
    NoHatNoState(Renumber(s, 1));
  }

  lemma {:induction false} RenumberHatFree(v: Re, b: nat)
    requires HatFree(v)
    ensures HatFree(Renumber(v, b))
  {
    match v
    case Leaf(_, _) =>
    case Star(r) => RenumberHatFree(r, b);
    case Plus(r) => RenumberHatFree(r, b);
    case Quest(r) => RenumberHatFree(r, b);
    case Cat(l, r) => RenumberHatFree(l, b); RenumberHatFree(r, b + Leaves(l));
    case Or(l, r) => RenumberHatFree(l, b); RenumberHatFree(r, b + Leaves(l));
  }

  /** On such texts the code reaches what the automaton should. */
  lemma SureReaches(s: Re, p: seq<int>, i: nat, w: seq<int>)
    requires NoFinal(s) && Text(p) && Sure(s, true, p) && NoEnd(w) && (forall c :: c in w ==> c in p || c == 0)
    ensures var r := Renumber(s, 1); Accept(r) in Ran(r, true, Opening(r, i), w) <==> WordAt(s, i, w)
  {
    hide Run, Ran, Opening, Harmless, Lang;
    var r := Renumber(s, 1);
    RenumberIsNumbered(s, 1);
    RanIsRun(r, true, Opening(r, i), w);
    OpeningMeaning(r, i, w);
    SameWord(s, i, w);
  }

  lemma HitsAreMatches(s: Re, p: seq<int>, i: nat, n: nat)
    requires NoFinal(s) && Text(p) && Sure(s, true, p)
    ensures Hits(Renumber(s, 1), Ended0(p), i, n) <==> MatchAt(s, p, i, n)
  {
    hide Ran, Opening, Harmless, Lang;
    var r, z := Renumber(s, 1), Ended0(p);
    if i + n <= |p| {
      assert z[i..i + n] == p[i..i + n];
      SureReaches(s, p, i, p[i..i + n]);
      if i + n == |p| {
        assert z[i..i + n + 1] == p[i..] + [0];
        SureReaches(s, p, i, p[i..] + [0]);
      }
    }
  }

  lemma SameWord(s: Re, i: nat, w: seq<int>)
    ensures WordAt(Renumber(s, 1), i, w) <==> WordAt(s, i, w)
  {
    RenumberKeeps(s, 1, w);
    RenumberKeeps(s, 1, [HAT] + w);
  }

  lemma SureSomewhere(s: Re, p: seq<int>, k: nat)
    requires NoFinal(s) && Text(p) && Sure(s, false, p) && k <= |p| + 1
    ensures var r, w := Renumber(s, 1), Ended0(p)[..k];
            Accept(r) in Ran(r, false, Hatted(r), w) <==> SomewhereIn(s, [HAT] + w)
  {
    hide Run, Ran, Hatted, SomewhereIn, Harmless;
    var r, w := Renumber(s, 1), Ended0(p)[..k];
    RenumberIsNumbered(s, 1);
    assert STRAY in w ==> STRAY in p;
    RanIsRun(r, false, Hatted(r), w);
    MatchMeaning(r, w);
    SameSomewhere(s, [HAT] + w);
  }

  lemma SameSomewhere(s: Re, x: seq<int>)
    ensures SomewhereIn(Renumber(s, 1), x) <==> SomewhereIn(s, x)
  {
    forall k | 0 <= k <= |x| ensures Lang(Renumber(s, 1), x[k..]) <==> Lang(s, x[k..]) {
      RenumberKeeps(s, 1, x[k..]);
    }
  }

  /** Leftmost and longest among what the code's automaton takes, of length `least` or more. */
  ghost predicate Answer(s: Re, p: seq<int>, least: nat, found: bool, patbeg: nat, patlen: int) {
    var r, z := Renumber(s, 1), Ended0(p);
    && (found ==> least <= patlen && Hits(r, z, patbeg, patlen))
    && (found ==> forall n :: least <= n && Hits(r, z, patbeg, n) ==> n <= patlen)
    && forall i, n :: 0 <= i < (if found then patbeg else |p| + 1) && least <= n ==> !Hits(r, z, i, n)
  }

  /** Leftmost and longest among the matches in the expression's own language. */
  ghost predicate RightAnswer(s: Re, p: seq<int>, least: nat, found: bool, patbeg: nat, patlen: int) {
    && (found ==> least <= patlen && MatchAt(s, p, patbeg, patlen))
    && (found ==> forall n :: least <= n && MatchAt(s, p, patbeg, n) ==> n <= patlen)
    && forall i, n :: 0 <= i < (if found then patbeg else |p| + 1) && least <= n ==> !MatchAt(s, p, i, n)
  }

  lemma SureAnswer(s: Re, p: seq<int>, least: nat, found: bool, patbeg: nat, patlen: int)
    requires NoFinal(s) && Text(p) && Sure(s, true, p) && Answer(s, p, least, found, patbeg, patlen)
    ensures RightAnswer(s, p, least, found, patbeg, patlen)
  {
    hide MatchAt, Hits, Sure;
    forall i: nat, n: nat ensures Hits(Renumber(s, 1), Ended0(p), i, n) <==> MatchAt(s, p, i, n) {
      HitsAreMatches(s, p, i, n);
    }
  }
}
