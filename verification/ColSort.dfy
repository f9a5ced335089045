/** The order in which col prints a line: by column, and within a column as the characters came. */
module ColSort {

  datatype Cset = Normal | Alternate

  datatype Entry = Entry(column: nat, cset: Cset, c: char)

  /** The characters in one column, in their order. */
  function InColumn(s: seq<Entry>, col: nat): seq<Entry> {
    if s == [] then []
    else InColumn(s[..|s| - 1], col) + if s[|s| - 1].column == col then [s[|s| - 1]] else []
  }

  /** The characters in the first k columns, column by column. */
  function Columns(s: seq<Entry>, k: nat): seq<Entry> {
    if k == 0 then [] else Columns(s, k - 1) + InColumn(s, k - 1)
  }

  ghost predicate Below(s: seq<Entry>, k: nat) {
    forall i :: 0 <= i < |s| ==> s[i].column < k
  }

  ghost predicate Sorted(s: seq<Entry>) {
    forall i, j :: 0 <= i < j < |s| ==> s[i].column <= s[j].column
  }

  /** The same characters in the same order within each column. */
  ghost predicate SameColumns(s: seq<Entry>, t: seq<Entry>) {
    forall col: nat :: InColumn(s, col) == InColumn(t, col)
  }

  // ------------------------------------------------------------ one stable order

  lemma {:induction false} InColumnIs(s: seq<Entry>, col: nat)
    ensures forall i :: 0 <= i < |InColumn(s, col)| ==> InColumn(s, col)[i].column == col
  {
    if s != [] { InColumnIs(s[..|s| - 1], col); }
  }

  lemma {:induction false} InColumnAppend(s: seq<Entry>, t: seq<Entry>, col: nat)
    ensures InColumn(s + t, col) == InColumn(s, col) + InColumn(t, col)
    decreases |t|
  {
    if t == [] {
      assert s + t == s;
    } else {
      var n := |t|;
      assert (s + t)[..|s + t| - 1] == s + t[..n - 1];
      InColumnAppend(s, t[..n - 1], col);
    }
  }

  lemma {:induction false} InColumnAll(s: seq<Entry>, col: nat, other: nat)
    requires forall i :: 0 <= i < |s| ==> s[i].column == col
    ensures InColumn(s, other) == if other == col then s else []
  {
    if s != [] {
      InColumnAll(s[..|s| - 1], col, other);
      assert s == s[..|s| - 1] + [s[|s| - 1]];
    }
  }

  lemma InColumnNone(col: nat)
    ensures InColumn([], col) == []
  {
  }

  lemma {:induction false} ColumnsKeep(s: seq<Entry>, k: nat, col: nat)
    ensures InColumn(Columns(s, k), col) == if col < k then InColumn(s, col) else []
  {
    hide InColumn;
    if k == 0 {
      InColumnNone(col);
    } else {
      ColumnsKeep(s, k - 1, col);
      InColumnAppend(Columns(s, k - 1), InColumn(s, k - 1), col);
      InColumnIs(s, k - 1);
      InColumnAll(InColumn(s, k - 1), k - 1, col);
    }
  }

  lemma SortedAppend(s: seq<Entry>, t: seq<Entry>, k: nat)
    requires Sorted(s) && Below(s, k) && forall i :: 0 <= i < |t| ==> t[i].column == k
    ensures Sorted(s + t) && Below(s + t, k + 1)
  {
  }

  lemma {:induction false} ColumnsSorted(s: seq<Entry>, k: nat)
    ensures Sorted(Columns(s, k)) && Below(Columns(s, k), k)
  {
    hide InColumn, Sorted, Below;
    if k > 0 {
      ColumnsSorted(s, k - 1);
      InColumnIs(s, k - 1);
      SortedAppend(Columns(s, k - 1), InColumn(s, k - 1), k - 1);
    } else {
      SortedNone();
    }
  }

  lemma SortedNone()
    ensures Sorted([]) && Below([], 0)
  {
  }

  lemma {:induction false} AboveEmpty(s: seq<Entry>, k: nat, col: nat)
    requires Below(s, k) && col >= k
    ensures InColumn(s, col) == []
  {
    if s != [] { AboveEmpty(s[..|s| - 1], k, col); }
  }

  /** Column by column is sorted and stable. */
  lemma ColumnsStable(s: seq<Entry>, k: nat)
    requires Below(s, k)
    ensures Sorted(Columns(s, k)) && SameColumns(Columns(s, k), s)
  {
    ColumnsSorted(s, k);
    forall col: nat ensures InColumn(Columns(s, k), col) == InColumn(s, col) {
      ColumnsKeep(s, k, col);
      if col >= k { AboveEmpty(s, k, col); }
    }
  }

  lemma {:induction false} Occurs(s: seq<Entry>, i: nat)
    requires i < |s|
    ensures InColumn(s, s[i].column) != []
  {
    if i < |s| - 1 { Occurs(s[..|s| - 1], i); }
  }

  lemma LastColumns(s: seq<Entry>, t: seq<Entry>)
    requires Sorted(s) && Sorted(t) && SameColumns(s, t) && s != []
    ensures t != [] && t[|t| - 1] == s[|s| - 1]
  {
    hide Sorted, InColumn;
    var e := s[|s| - 1];
    Occurs(s, |s| - 1);
    assert InColumn(s, e.column) == InColumn(t, e.column);
    if t == [] { InColumnNone(e.column); return; }
    var d := t[|t| - 1];
    Occurs(t, |t| - 1);
    assert InColumn(s, d.column) == InColumn(t, d.column);
    NotAfterLast(s, d.column);
    NotAfterLast(t, e.column);
    InColumnLast(s, e.column);
    InColumnLast(t, e.column);
    assert InColumn(s, e.column)[|InColumn(s, e.column)| - 1] == e;
    assert InColumn(t, e.column)[|InColumn(t, e.column)| - 1] == d;
  }

  lemma {:induction false} NotAfterLast(s: seq<Entry>, col: nat)
    requires Sorted(s) && InColumn(s, col) != []
    ensures s != [] && col <= s[|s| - 1].column
  {
    if s[|s| - 1].column != col { NotAfterLast(s[..|s| - 1], col); }
  }

  lemma InColumnLast(s: seq<Entry>, col: nat)
    requires s != []
    ensures var e := s[|s| - 1];
            InColumn(s, col) == if e.column == col then InColumn(s[..|s| - 1], col) + [e] else InColumn(s[..|s| - 1], col)
  {
  }

  lemma SameInit(a: seq<Entry>, b: seq<Entry>, e: Entry)
    ensures a + [e] == b + [e] ==> a == b
  {
    assert (a + [e])[..|a|] == a && (b + [e])[..|b|] == b;
  }

  /** There is only one way to sort a line stably. */
  lemma {:induction false} StableUnique(s: seq<Entry>, t: seq<Entry>)
    requires Sorted(s) && Sorted(t) && SameColumns(s, t)
    ensures s == t
    decreases |s|
  {
    if s == [] {
      if t != [] { LastColumns(t, s); }
    } else {
      LastColumns(s, t);
      var a, b := s[..|s| - 1], t[..|t| - 1];
      forall col: nat ensures InColumn(a, col) == InColumn(b, col) {
        SameInit(InColumn(a, col), InColumn(b, col), s[|s| - 1]);
        InColumnLast(s, col);
        InColumnLast(t, col);
        assert InColumn(s, col) == InColumn(t, col);
      }
      StableUnique(a, b);
      assert s == a + [s[|s| - 1]] && t == b + [t[|t| - 1]];
    }
  }

  // --------------------------------------------------------------- counting sort

  lemma {:induction false} InColumnGrows(s: seq<Entry>, j: nat, col: nat)
    requires j <= |s|
    ensures |InColumn(s[..j], col)| <= |InColumn(s, col)|
    decreases |s|
  {
    if j < |s| {
      InColumnGrows(s[..|s| - 1], j, col);
      assert s[..|s| - 1][..j] == s[..j];
    } else {
      assert s[..j] == s;
    }
  }

  lemma InColumnNext(s: seq<Entry>, j: nat, col: nat)
    requires j < |s|
    ensures InColumn(s[..j + 1], col) == InColumn(s[..j], col) + if s[j].column == col then [s[j]] else []
  {
    assert s[..j + 1][..j] == s[..j];
  }

  lemma {:induction false} ColumnsMonotone(s: seq<Entry>, j: nat, k: nat)
    requires j < k
    ensures |Columns(s, j)| + |InColumn(s, j)| <= |Columns(s, k)|
  {
    if j < k - 1 { ColumnsMonotone(s, j, k - 1); }
  }

  lemma {:induction false} ColumnsAll(s: seq<Entry>, k: nat)
    requires Below(s, k)
    ensures |Columns(s, k)| == |s|
  {
    if s == [] {
      ColumnsNone(k);
    } else {
      ColumnsAll(s[..|s| - 1], k);
      ColumnsOneMore(s, k);
    }
  }

  lemma {:induction false} ColumnsNone(k: nat)
    ensures Columns([], k) == []
  {
    if k > 0 { ColumnsNone(k - 1); }
  }

  lemma {:induction false} ColumnsOneMore(s: seq<Entry>, k: nat)
    requires s != []
    ensures |Columns(s, k)| == |Columns(s[..|s| - 1], k)| + if s[|s| - 1].column < k then 1 else 0
  {
    if k > 0 { ColumnsOneMore(s, k - 1); }
  }

  /** Where the next character of a column goes. */
  function Slot(s: seq<Entry>, j: nat, col: nat): nat
    requires j <= |s|
  {
    |Columns(s, col)| + |InColumn(s[..j], col)|
  }

  /** The first j characters are in place, as far as they belong to this column. */
  ghost predicate PlacedIn(s: seq<Entry>, j: nat, sorted: seq<Entry>, col: nat)
    requires j <= |s|
  {
    var a := |Columns(s, col)|;
    Slot(s, j, col) <= |sorted| && sorted[a..Slot(s, j, col)] == InColumn(s[..j], col)
  }

  ghost predicate Placed(s: seq<Entry>, j: nat, k: nat, sorted: seq<Entry>)
    requires j <= |s|
  {
    forall col: nat :: col < k ==> PlacedIn(s, j, sorted, col)
  }

  lemma PlacedNone(s: seq<Entry>, k: nat, sorted: seq<Entry>)
    requires Below(s, k) && |sorted| == |s|
    ensures Placed(s, 0, k, sorted)
  {
    ColumnsAll(s, k);
    assert s[..0] == [];
    forall col: nat | col < k ensures PlacedIn(s, 0, sorted, col) { ColumnsMonotone(s, col, k); }
  }

  /** Nothing else goes where the next character goes. */
  lemma SlotFree(s: seq<Entry>, j: nat, col: nat, i: nat)
    requires j < |s| && i < |InColumn(s[..j], col)|
    ensures |Columns(s, col)| + i != Slot(s, j, s[j].column)
  {
    var c := s[j].column;
    InColumnGrows(s, j, col);
    InColumnGrows(s, j + 1, c);
    InColumnNext(s, j, c);
    if col < c { ColumnsMonotone(s, col, c); } else if c < col { ColumnsMonotone(s, c, col); }
  }

  lemma SlotInside(s: seq<Entry>, j: nat, k: nat)
    requires j < |s| && Below(s, k)
    ensures Slot(s, j, s[j].column) < |s|
  {
    var c := s[j].column;
    InColumnGrows(s, j + 1, c);
    InColumnNext(s, j, c);
    assert |InColumn(s[..j + 1], c)| == |InColumn(s[..j], c)| + 1;
    ColumnsMonotone(s, c, k);
    ColumnsAll(s, k);
  }

  lemma PlacedOne(s: seq<Entry>, j: nat, k: nat, sorted: seq<Entry>)
    requires j < |s| && Below(s, k) && |sorted| == |s| && Placed(s, j, k, sorted)
    ensures Slot(s, j, s[j].column) < |s|
    ensures Placed(s, j + 1, k, sorted[Slot(s, j, s[j].column) := s[j]])
  {
    SlotInside(s, j, k);
    var at := Slot(s, j, s[j].column);
    var next, now := j + 1, sorted[at := s[j]];
    forall col: nat | col < k ensures PlacedIn(s, next, now, col) {
      assert PlacedIn(s, j, sorted, col);
      if col == s[j].column { PlacedHere(s, j, sorted); } else { PlacedThere(s, j, sorted, col); }
    }
  }

  lemma PlacedHere(s: seq<Entry>, j: nat, sorted: seq<Entry>)
    requires j < |s| && PlacedIn(s, j, sorted, s[j].column) && Slot(s, j, s[j].column) < |sorted|
    ensures PlacedIn(s, j + 1, sorted[Slot(s, j, s[j].column) := s[j]], s[j].column)
  {
    hide InColumn, Columns;
    var c := s[j].column;
    var a, at := |Columns(s, c)|, Slot(s, j, c);
    InColumnNext(s, j, c);
    assert sorted[at := s[j]][a..at + 1] == sorted[a..at] + [s[j]];
  }

  lemma PlacedThere(s: seq<Entry>, j: nat, sorted: seq<Entry>, col: nat)
    requires j < |s| && PlacedIn(s, j, sorted, col) && col != s[j].column && Slot(s, j, s[j].column) < |sorted|
    ensures PlacedIn(s, j + 1, sorted[Slot(s, j, s[j].column) := s[j]], col)
  {
    hide InColumn, Columns;
    var a, b, at := |Columns(s, col)|, Slot(s, j, col), Slot(s, j, s[j].column);
    InColumnNext(s, j, col);
    if a <= at < b { SlotFree(s, j, col, at - a); }
    assert sorted[at := s[j]][a..b] == sorted[a..b];
  }

  lemma PlacedAll(s: seq<Entry>, k: nat, sorted: seq<Entry>)
    requires Below(s, k) && |sorted| == |s| && Placed(s, |s|, k, sorted)
    ensures sorted == Columns(s, k)
  {
    assert s[..|s|] == s;
    ColumnsAll(s, k);
    PlacedColumns(s, k, k, sorted);
    assert sorted[..|s|] == sorted;
  }

  lemma {:induction false} PlacedColumns(s: seq<Entry>, n: nat, k: nat, sorted: seq<Entry>)
    requires n <= k && Placed(s, |s|, k, sorted) && s[..|s|] == s
    ensures |Columns(s, n)| <= |sorted| && sorted[..|Columns(s, n)|] == Columns(s, n)
  {
    hide InColumn;
    if n > 0 {
      PlacedColumns(s, n - 1, k, sorted);
      assert PlacedIn(s, |s|, sorted, n - 1);
      var a, b := |Columns(s, n - 1)|, |Columns(s, n)|;
      assert sorted[..b] == sorted[..a] + sorted[a..b];
    }
  }

  /** Each character goes to the next free place of its column. */
  method PlaceAll(line: seq<Entry>, count: array<nat>, sorted: array<Entry>)
    requires Below(line, count.Length) && sorted.Length == |line|
    requires forall col :: 0 <= col < count.Length ==> count[col] == Slot(line, 0, col)
    modifies count, sorted
    ensures sorted[..] == Columns(line, count.Length)
  {
    hide Placed, Slot, Below;
    var i := 0;
    PlacedNone(line, count.Length, sorted[..]);
    while i < |line|
      invariant i <= |line|
      invariant forall col :: 0 <= col < count.Length ==> count[col] == Slot(line, i, col)
      invariant Placed(line, i, count.Length, sorted[..])
    {
      PlaceOne(line, i, count, sorted);
      i := i + 1;
    }
    PlacedAll(line, count.Length, sorted[..]);
  }

  method PlaceOne(line: seq<Entry>, i: nat, count: array<nat>, sorted: array<Entry>)
    requires Below(line, count.Length) && sorted.Length == |line| && i < |line|
    requires forall col :: 0 <= col < count.Length ==> count[col] == Slot(line, i, col)
    requires Placed(line, i, count.Length, sorted[..])
    modifies count, sorted
    ensures forall col :: 0 <= col < count.Length ==> count[col] == Slot(line, i + 1, col)
    ensures Placed(line, i + 1, count.Length, sorted[..])
  {
    hide Placed, Slot;
    var c := line[i];
    PlacedOne(line, i, count.Length, sorted[..]);
    forall col: nat | col < count.Length ensures Slot(line, i + 1, col) == count[col] + if c.column == col then 1 else 0 {
      NextSlot(line, i, col);
    }
    ghost var was := sorted[..];
    var at := count[c.column];
    sorted[at] := c;
    assert sorted[..] == was[at := c];
    count[c.column] := at + 1;
  }

  /** The counting sort of flush_line. */
  method CountingSort(line: seq<Entry>, maxCol: nat) returns (sorted: array<Entry>)
    requires Below(line, maxCol + 1)
    ensures fresh(sorted) && sorted[..] == Columns(line, maxCol + 1)
  {
    var count := new nat[maxCol + 1](_ => 0);
    sorted := new Entry[|line|];
    CountAll(line, count);
    RunningTotal(line, count);
    PlaceAll(line, count, sorted);
  }

  lemma NextSlot(s: seq<Entry>, j: nat, col: nat)
    requires j < |s|
    ensures Slot(s, j + 1, col) == Slot(s, j, col) + if s[j].column == col then 1 else 0
  {
    InColumnNext(s, j, col);
  }

  /** How many characters each column holds. */
  method CountAll(line: seq<Entry>, count: array<nat>)
    requires Below(line, count.Length) && forall col :: 0 <= col < count.Length ==> count[col] == 0
    modifies count
    ensures forall col :: 0 <= col < count.Length ==> count[col] == |InColumn(line, col)|
  {
    var i := 0;
    while i < |line|
      invariant i <= |line|
      invariant forall col :: 0 <= col < count.Length ==> count[col] == |InColumn(line[..i], col)|
    {
      forall col: nat ensures |InColumn(line[..i + 1], col)| == |InColumn(line[..i], col)| + if line[i].column == col then 1 else 0 {
        InColumnNext(line, i, col);
      }
      count[line[i].column] := count[line[i].column] + 1;
      i := i + 1;
    }
    assert line[..|line|] == line;
  }

  lemma ColumnsNext(s: seq<Entry>, k: nat)
    ensures Columns(s, 0) == [] && |Columns(s, k + 1)| == |Columns(s, k)| + |InColumn(s, k)|
  {
  }

  /** From counts to the place of each column's first character. */
  method RunningTotal(line: seq<Entry>, count: array<nat>)
    requires forall col :: 0 <= col < count.Length ==> count[col] == |InColumn(line, col)|
    modifies count
    ensures forall col :: 0 <= col < count.Length ==> count[col] == Slot(line, 0, col)
  {
    hide InColumn, Columns;
    ColumnsNext(line, 0);
    var tot: nat, i := 0, 0;
    while i < count.Length
      invariant i <= count.Length && tot == |Columns(line, i)|
      invariant forall col :: 0 <= col < i ==> count[col] == |Columns(line, col)|
      invariant forall col :: i <= col < count.Length ==> count[col] == |InColumn(line, col)|
    {
      ColumnsNext(line, i);
      var save := count[i];
      count[i] := tot;
      tot := tot + save;
      i := i + 1;
    }
    assert line[..0] == [];
    forall col: nat | col < count.Length ensures count[col] == Slot(line, 0, col) { InColumnNone(col); }
  }
}
