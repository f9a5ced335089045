/** The encoder's dictionary: open addressing in a table of prime size with a secondary probe.
    Probe t of a key first hashed to i visits slot i - t * step, modulo the size. */
module LzwHash {
  import opened Bits
  import opened Lzw

  const HSIZE: nat := 69001
  const EMPTY: int := -1

  // --------------------------------------------------------- the table size

  lemma NoSmallFactor(k: nat, q: nat)
    requires 1 < k < 264
    ensures HSIZE != k * q
  {
  }

  lemma LargeProduct(k: nat, q: nat)
    requires k >= 264 && q >= 264
    ensures k * q > HSIZE
  {
  }

  /** 69001 is prime. */
  lemma TableSizeIsPrime(k: nat, q: nat)
    requires 1 < k < HSIZE
    ensures HSIZE != k * q
  {
    if k < 264 {
      NoSmallFactor(k, q);
    } else if 1 < q < 264 {
      NoSmallFactor(q, k);
    } else if q >= 264 {
      LargeProduct(k, q);
    }
  }

  /** No walk shorter than the whole table returns to its first slot. */
  lemma {:induction false} StepsDoNotReturn(k: nat, step: nat, m: int)
    requires 0 < k < HSIZE && 0 < step < HSIZE
    ensures k * step != HSIZE * m
    decreases k
  {
    if k > 1 {
      var q, r := HSIZE / k, HSIZE % k;
      TableSizeIsPrime(k, q);
      RemainderWalk(k, step, q, r, m);
      StepsDoNotReturn(r, step, step - q * m);
    }
  }

  lemma RemainderWalk(k: int, step: int, q: int, r: int, m: int)
    requires HSIZE == q * k + r
    ensures k * step == HSIZE * m ==> r * step == HSIZE * (step - q * m)
  {
    assert r == HSIZE - q * k;
    assert (q * k) * step == q * (k * step);
  }

  // ------------------------------------------------------------------ probes

  /** First probe: (c << 8) ^ ent. */
  function FirstSlot(e: Entry): (i: nat)
    requires e.prefix < 65536
    ensures i < 65536
  {
    (((e.suffix as bv16) << 8) ^ (e.prefix as bv16)) as nat
  }

  /** The secondary displacement. */
  function StepOf(first: nat): (d: nat)
    requires first < HSIZE
    ensures 0 < d < HSIZE
  {
    if first == 0 then 1 else HSIZE - first
  }

  function NextSlot(i: nat, first: nat): (j: nat)
    requires i < HSIZE && first < HSIZE
    ensures j < HSIZE
  {
    var d := i - StepOf(first);
    if d < 0 then d + HSIZE else d
  }

  function Slot(first: nat, t: nat): (i: nat)
    requires first < HSIZE
    ensures i < HSIZE
  {
    if t == 0 then first else NextSlot(Slot(first, t - 1), first)
  }

  /** How often the first t steps wrapped around the table. */
  function Wraps(first: nat, t: nat): nat
    requires first < HSIZE
  {
    if t == 0 then 0
    else Wraps(first, t - 1) + if Slot(first, t - 1) < StepOf(first) then 1 else 0
  }

  lemma {:induction false} SlotClosedForm(first: nat, t: nat)
    requires first < HSIZE
    ensures Slot(first, t) == first - t * StepOf(first) + HSIZE * Wraps(first, t)
  {
    if t > 0 {
      SlotClosedForm(first, t - 1);
      assert t * StepOf(first) == (t - 1) * StepOf(first) + StepOf(first);
    }
  }

  /** Fewer than HSIZE probes never visit a slot twice. */
  lemma ProbesDistinct(first: nat, t: nat, u: nat)
    requires first < HSIZE && t < u < HSIZE
    ensures Slot(first, t) != Slot(first, u)
  {
    SlotClosedForm(first, t);
    SlotClosedForm(first, u);
    var d := StepOf(first);
    assert (u - t) * d == u * d - t * d;
    StepsDoNotReturn(u - t, d, Wraps(first, u) - Wraps(first, t));
  }

  ghost function Visited(first: nat, t: nat): set<nat>
    requires first < HSIZE
  {
    set u: nat | u < t :: Slot(first, u)
  }

  lemma {:induction false} VisitedCount(first: nat, t: nat)
    requires first < HSIZE && t <= HSIZE
    ensures |Visited(first, t)| == t
  {
    if t > 0 {
      VisitedCount(first, t - 1);
      forall u: nat | u < t - 1
        ensures Slot(first, u) != Slot(first, t - 1)
      {
        ProbesDistinct(first, u, t - 1);
      }
      assert Visited(first, t) == Visited(first, t - 1) + {Slot(first, t - 1)};
    }
  }

  // ----------------------------------------------------- the table as a map

  /** The number stored for an entry: (c << maxbits) + ent. */
  function Key(e: Entry, maxbits: nat): nat {
    Shl(e.suffix, maxbits) + e.prefix
  }

  lemma KeyInjective(e: Entry, f: Entry, maxbits: nat)
    requires e.prefix < Pow2(maxbits) && f.prefix < Pow2(maxbits)
    requires Key(e, maxbits) == Key(f, maxbits)
    ensures e == f
  {
    SplitShl(e.suffix, e.prefix, maxbits);
    SplitShl(f.suffix, f.prefix, maxbits);
  }

  /** The arrays hold exactly the entries: entry j sits in slot places[j] with code FIRST + j,
      `dist[j]` probes from its first slot, every slot before it on that walk is taken, and every
      taken slot belongs to an entry. */
  ghost predicate Holds(htab: seq<int>, codetab: seq<int>, es: seq<Entry>, places: seq<nat>, dist: seq<nat>, maxbits: nat) {
    && |htab| == |codetab| == HSIZE && |places| == |dist| == |es|
    && (forall j :: 0 <= j < |es| ==> es[j].prefix < 65536)
    && (forall j :: 0 <= j < |es| ==> es[j].prefix < Pow2(maxbits))
    && (forall j :: 0 <= j < |es| ==> places[j] < HSIZE && places[j] == Slot(FirstSlot(es[j]), dist[j]))
    && (forall j :: 0 <= j < |es| ==> htab[places[j]] == Key(es[j], maxbits) && codetab[places[j]] == FIRST + j)
    && (forall j, u: nat :: 0 <= j < |es| && u < dist[j] ==> htab[Slot(FirstSlot(es[j]), u)] >= 0)
    && (forall i :: 0 <= i < HSIZE && htab[i] >= 0 ==> i in places)
    && (forall i :: 0 <= i < HSIZE ==> htab[i] >= EMPTY)
  }

  ghost function Taken(places: seq<nat>): (s: set<nat>)
    ensures forall i :: i in s <==> i in places
    ensures |s| <= |places|
  {
    if places == [] then {}
    else
      var n := |places| - 1;
      assert places == places[..n] + [places[n]];
      Taken(places[..n]) + {places[n]}
  }

  lemma SubsetCount(a: set<nat>, b: set<nat>)
    requires a <= b
    ensures |a| <= |b|
  {
    assert b == a + (b - a);
  }

  /** The first t slots of the walk are taken. */
  ghost predicate AllTaken(htab: seq<int>, first: nat, t: nat)
    requires |htab| == HSIZE && first < HSIZE
  {
    forall u: nat :: u < t ==> htab[Slot(first, u)] >= 0
  }

  /** No walk from `first` over taken slots only is longer than n. */
  ghost predicate WalksEnd(htab: seq<int>, first: nat, n: nat)
    requires |htab| == HSIZE && first < HSIZE
  {
    && (forall i :: 0 <= i < HSIZE ==> htab[i] >= EMPTY)
    && forall t: nat :: t <= HSIZE && AllTaken(htab, first, t) ==> t <= n
  }

  /** Every walk ends: it has at most as many slots as there are entries. */
  lemma WalkBounded(htab: seq<int>, codetab: seq<int>, es: seq<Entry>, places: seq<nat>, dist: seq<nat>, maxbits: nat,
                    first: nat)
    requires Holds(htab, codetab, es, places, dist, maxbits)
    requires first < HSIZE
    ensures WalksEnd(htab, first, |es|)
  {
    forall t: nat | t <= HSIZE && AllTaken(htab, first, t)
      ensures t <= |es|
    {
      VisitedCount(first, t);
      SubsetCount(Visited(first, t), Taken(places));
    }
  }

  /** Meeting the key means the entry is present with the code found there. */
  lemma Hit(htab: seq<int>, codetab: seq<int>, es: seq<Entry>, places: seq<nat>, dist: seq<nat>, maxbits: nat,
            e: Entry, i: nat)
    requires Holds(htab, codetab, es, places, dist, maxbits)
    requires Distinct(es)
    requires es != [] ==> e.prefix < Pow2(maxbits)
    requires i < HSIZE && htab[i] == Key(e, maxbits)
    ensures e in es && codetab[i] == CodeOf(es, e)
  {
    assert i in places;
    var j :| 0 <= j < |places| && places[j] == i;
    KeyInjective(es[j], e, maxbits);
  }

  /** Meeting an empty slot before the key means the entry is absent. */
  lemma Miss(htab: seq<int>, codetab: seq<int>, es: seq<Entry>, places: seq<nat>, dist: seq<nat>, maxbits: nat,
             e: Entry, t: nat)
    requires Holds(htab, codetab, es, places, dist, maxbits)
    requires e.prefix < 65536
    requires forall u: nat :: u < t ==> htab[Slot(FirstSlot(e), u)] != Key(e, maxbits)
    requires htab[Slot(FirstSlot(e), t)] == EMPTY
    ensures e !in es
  {
    forall j | 0 <= j < |es|
      ensures es[j] != e
    {
      var i := FirstSlot(es[j]);
      if dist[j] < t {
        assert htab[Slot(i, dist[j])] == Key(es[j], maxbits);
      } else if dist[j] == t {
        assert htab[Slot(i, t)] == Key(es[j], maxbits);
      } else {
        assert htab[Slot(i, t)] >= 0;
      }
    }
  }

  /** Storing a new entry in the empty slot its walk ended at. */
  lemma Insert(htab: seq<int>, codetab: seq<int>, es: seq<Entry>, places: seq<nat>, dist: seq<nat>, maxbits: nat,
               e: Entry, t: nat)
    requires Holds(htab, codetab, es, places, dist, maxbits)
    requires e.prefix < 65536 && e.prefix < Pow2(maxbits)
    requires AllTaken(htab, FirstSlot(e), t)
    requires htab[Slot(FirstSlot(e), t)] == EMPTY
    ensures var i := Slot(FirstSlot(e), t);
            Holds(htab[i := Key(e, maxbits)], codetab[i := FIRST + |es|], es + [e], places + [i], dist + [t], maxbits)
  {
    var i := Slot(FirstSlot(e), t);
    var htab' := htab[i := Key(e, maxbits)];
    assert i !in places;
    forall k | 0 <= k < HSIZE && htab'[k] >= 0
      ensures k in places + [i]
    {
      if k != i { assert htab[k] >= 0; }
    }
  }

  lemma EmptyHolds(htab: seq<int>, codetab: seq<int>, maxbits: nat)
    requires |htab| == |codetab| == HSIZE
    requires forall i :: 0 <= i < HSIZE ==> htab[i] == EMPTY
    ensures Holds(htab, codetab, [], [], [], maxbits)
  {
  }
}
