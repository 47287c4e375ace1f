/**
  The composer: a supply of stems and an index from each stem to the designs
  that use it. Each arriving stem is added to the supply, and then the designs
  indexed under that stem are tried in the order they were added; the first
  one the supply can fill becomes a bouquet and its stems leave the supply.
 */
module Composers {
  import opened Wrappers
  import opened Stems
  import opened Designs
  import opened Selection

  /** A finished bouquet: the design's code and the stems drawn for it, in design order. */
  datatype Bouquet = Bouquet(code: string, arrangement: seq<StemCount>)

  datatype Composer = Composer(supply: Supply, designs: map<Stem, seq<Design>>)

  /** A composer before any design or stem has been added. */
  const Empty: Composer := Composer(map[], map[])

  /** The designs indexed under `s`; a stem never indexed has none. */
  function Bucket(c: Composer, s: Stem): seq<Design> {
    if s in c.designs then c.designs[s] else []
  }

  /** The stems a design names. */
  function StemsOf(d: Design): set<Stem> {
    set o | o in d.stemCounts :: o.stem
  }

  /**
    What every reachable composer satisfies: the supply is non-negative, and
    every indexed design is a constructed design that names the stem it is
    indexed under.
   */
  predicate Inv(c: Composer) {
    && NonNegative(c.supply)
    && forall s, d :: s in c.designs && d in c.designs[s] ==> ValidDesign(d) && s in StemsOf(d)
  }

  lemma EmptyInv()
    ensures Inv(Empty)
  {
  }

  // ---------------------------------------------------------------------------
  // add_design

  /** The number of options of a design that name `s`. */
  function Occurrences(options: seq<StemCount>, s: Stem): nat {
    if |options| == 0 then 0
    else (if options[0].stem == s then 1 else 0) + Occurrences(options[1..], s)
  }

  function Repeat(d: Design, n: nat): (r: seq<Design>)
    ensures |r| == n && forall e :: e in r ==> e == d
  {
    if n == 0 then [] else [d] + Repeat(d, n - 1)
  }

  /** The loop of `add_design` from some option on: `designs[option.stem].push_back(design)`. */
  function Register(c: Composer, d: Design, options: seq<StemCount>): (r: Composer)
    ensures r.supply == c.supply
    ensures forall s :: Bucket(r, s) == Bucket(c, s) + Repeat(d, Occurrences(options, s))
    decreases |options|
  {
    if |options| == 0 then c
    else
      var s := options[0].stem;
      var next := c.(designs := c.designs[s := Bucket(c, s) + [d]]);
      var r := Register(next, d, options[1..]);
      forall t ensures Bucket(r, t) == Bucket(c, t) + Repeat(d, Occurrences(options, t)) {
        var n := Occurrences(options[1..], t);
        assert Bucket(r, t) == Bucket(next, t) + Repeat(d, n);
        if t == s {
          assert Bucket(next, t) == Bucket(c, t) + [d];
          assert Repeat(d, n + 1) == [d] + Repeat(d, n);
          assert Bucket(c, t) + [d] + Repeat(d, n) == Bucket(c, t) + Repeat(d, n + 1);
        } else {
          assert Bucket(next, t) == Bucket(c, t);
        }
      }
      r
  }

  /** `add_design`: appends the design to the bucket of every stem it names. */
  /**
    `add_design`: the supply is untouched, and every bucket keeps the
    designs it had, in order, followed only by copies of `d`.
   */
  function AddDesign(c: Composer, d: Design): (r: Composer)
    ensures r.supply == c.supply
    ensures forall s :: Bucket(c, s) <= Bucket(r, s)
    ensures forall s, e :: e in Bucket(r, s)[|Bucket(c, s)|..] ==> e == d
  {
    Register(c, d, d.stemCounts)
  }

  lemma {:induction false} OccurrencesSorted(options: seq<StemCount>, s: Stem)
    requires SortedKeys(options)
    ensures Occurrences(options, s) == if s in (set o | o in options :: o.stem) then 1 else 0
  {
    if |options| > 0 {
      assert SortedKeys(options[1..]);
      OccurrencesSorted(options[1..], s);
      assert (set o | o in options :: o.stem) == {options[0].stem} + (set o | o in options[1..] :: o.stem) by {
        assert options == [options[0]] + options[1..];
      }
      if options[0].stem == s {
        forall o | o in options[1..] ensures o.stem != s {
          var i :| 0 <= i < |options[1..]| && options[1..][i] == o;
          assert Less(options[0].stem, options[i + 1].stem);
        }
      }
    }
  }

  /**
    A constructed design lands exactly once in the bucket of each stem it
    names, at the end, and nowhere else; the supply is untouched.
   */
  lemma AddDesignBuckets(c: Composer, d: Design)
    requires ValidDesign(d)
    ensures AddDesign(c, d).supply == c.supply
    ensures forall s :: Bucket(AddDesign(c, d), s) == Bucket(c, s) + (if s in StemsOf(d) then [d] else [])
  {
    forall s ensures Bucket(AddDesign(c, d), s) == Bucket(c, s) + (if s in StemsOf(d) then [d] else []) {
      OccurrencesSorted(d.stemCounts, s);
      assert Repeat(d, 1) == [d];
    }
  }

  lemma AddDesignInv(c: Composer, d: Design)
    requires Inv(c) && ValidDesign(d)
    ensures Inv(AddDesign(c, d))
  {
    var r := AddDesign(c, d);
    AddDesignBuckets(c, d);
    forall s, e | s in r.designs && e in r.designs[s]
      ensures ValidDesign(e) && s in StemsOf(e)
    {
      BucketMember(c, d, r, s, e);
    }
  }

  lemma BucketMember(c: Composer, d: Design, r: Composer, s: Stem, e: Design)
    requires Inv(c) && ValidDesign(d)
    requires Bucket(r, s) == Bucket(c, s) + (if s in StemsOf(d) then [d] else [])
    requires s in r.designs && e in r.designs[s]
    ensures ValidDesign(e) && s in StemsOf(e)
  {
    assert e in Bucket(r, s);
    if e in Bucket(c, s) {
      assert s in c.designs && e in c.designs[s];
    } else {
      assert s in StemsOf(d) && e == d;
    }
  }

  // ---------------------------------------------------------------------------
  // add_stem

  /** `add_stem`: one more stem of kind `s` on hand; nothing else changes. */
  function AddStem(c: Composer, s: Stem): (r: Composer)
    ensures r.designs == c.designs
    ensures Available(r.supply, s) == Available(c.supply, s) + 1
    ensures forall t :: t != s ==> Available(r.supply, t) == Available(c.supply, t)
  {
    c.(supply := c.supply[s := Available(c.supply, s) + 1])
  }

  lemma AddStemTotal(c: Composer, s: Stem)
    ensures TotalSupply(AddStem(c, s).supply) == TotalSupply(c.supply) + 1
  {
    TotalSupplyUpdate(c.supply, s, Available(c.supply, s) + 1);
  }

  lemma AddStemInv(c: Composer, s: Stem)
    requires Inv(c)
    ensures Inv(AddStem(c, s))
  {
  }

  // ---------------------------------------------------------------------------
  // bouquet_for_stem

  /**
    The designs of a bucket tried in order: the position of the first one
    whose selection succeeds, with its workspace.
   */
  function FirstFit(supply: Supply, ds: seq<Design>): (r: Option<(nat, seq<StemCount>)>)
    ensures r.None? <==> forall j :: 0 <= j < |ds| ==> SelectStems(supply, ds[j]).None?
    ensures r.Some? ==> r.value.0 < |ds| && SelectStems(supply, ds[r.value.0]) == Some(r.value.1)
    ensures r.Some? ==> forall j :: 0 <= j < r.value.0 ==> SelectStems(supply, ds[j]).None?
  {
    if |ds| == 0 then None
    else
      match SelectStems(supply, ds[0])
      case Some(ws) => Some((0, ws))
      case None =>
        match FirstFit(supply, ds[1..])
        case None => None
        case Some((i, ws)) => Some((i + 1, ws))
  }

  /**
    `bouquet_for_stem`: tries only the designs indexed under `s`, in the
    order they were added; the first whose selection succeeds has its
    workspace taken from the supply and becomes the bouquet. Without a
    success the composer is returned unchanged.
   */
  function BouquetForStem(c: Composer, s: Stem): (r: (Composer, Option<Bouquet>))
    ensures r.0.designs == c.designs
    ensures r.1.None? <==> forall d :: d in Bucket(c, s) ==> SelectStems(c.supply, d).None?
    ensures r.1.None? ==> r.0 == c
    ensures r.1.Some? ==> exists i :: FirstFitAt(c, s, i, r.1.value) && r.0.supply == Take(c.supply, r.1.value.arrangement)
  {
    match FirstFit(c.supply, Bucket(c, s))
    case None => (c, None)
    case Some((i, ws)) =>
      var b := Bouquet(Bucket(c, s)[i].code, ws);
      assert FirstFitAt(c, s, i, b);
      (c.(supply := Take(c.supply, ws)), Some(b))
  }

  /**
    `b` is what design `i` of bucket `s` makes from the supply, and every
    design before it in the bucket fails.
   */
  predicate FirstFitAt(c: Composer, s: Stem, i: int, b: Bouquet) {
    var ds := Bucket(c, s);
    && 0 <= i < |ds|
    && SelectStems(c.supply, ds[i]) == Some(b.arrangement)
    && b.code == ds[i].code
    && forall j :: 0 <= j < i ==> SelectStems(c.supply, ds[j]).None?
  }

  /**
    What a successful selection for a constructed design gives: an
    arrangement of the design's stems that fits the supply, sums to the
    design's total and names every stem of the design; taking it keeps the
    supply non-negative and lowers the total on hand by the design's total.
   */
  lemma SelectedArrangement(supply: Supply, d: Design, ws: seq<StemCount>)
    requires NonNegative(supply) && ValidDesign(d)
    requires SelectStems(supply, d) == Some(ws)
    ensures Fits(supply, d.stemCounts, ws) && Sum(ws) == d.total
    ensures StemsOf(d) == (set o | o in ws :: o.stem)
    ensures NonNegative(Take(supply, ws))
    ensures TotalSupply(Take(supply, ws)) == TotalSupply(supply) - d.total
  {
    ValidDesignTotal(d);
    SelectSound(supply, d.stemCounts, d.total);
    forall t | t in StemsOf(d) ensures t in (set o | o in ws :: o.stem) {
      var o :| o in d.stemCounts && o.stem == t;
      var j :| 0 <= j < |d.stemCounts| && d.stemCounts[j] == o;
      assert ws[j] in ws;
    }
    forall t | t in (set o | o in ws :: o.stem) ensures t in StemsOf(d) {
      var o :| o in ws && o.stem == t;
      var j :| 0 <= j < |ws| && ws[j] == o;
      assert d.stemCounts[j] in d.stemCounts;
    }
    TakeNonNegative(supply, d.stemCounts, ws);
    TotalSupplyTake(supply, ws);
  }

  /**
    A bouquet is a valid arrangement of a design indexed under `s`: the
    design's stems in its order, each drawn at least once and at most its
    bounded maximum and the supply, summing to the design's total; the
    arrangement includes stem `s`.
   */
  lemma BouquetForStemValid(c: Composer, s: Stem)
    requires Inv(c)
    requires BouquetForStem(c, s).1.Some?
    ensures exists d :: BouquetOf(c, s, d, BouquetForStem(c, s).1.value)
  {
    var b := BouquetForStem(c, s).1.value;
    var i :| FirstFitAt(c, s, i, b) && BouquetForStem(c, s).0.supply == Take(c.supply, b.arrangement);
    var d := Bucket(c, s)[i];
    assert d in c.designs[s];
    SelectedArrangement(c.supply, d, b.arrangement);
    assert BouquetOf(c, s, d, b);
  }

  /** Making a bouquet keeps the invariant: in particular the supply stays non-negative. */
  lemma BouquetForStemInv(c: Composer, s: Stem)
    requires Inv(c)
    ensures Inv(BouquetForStem(c, s).0)
  {
    var (r, b) := BouquetForStem(c, s);
    if b.Some? {
      var i :| FirstFitAt(c, s, i, b.value) && r.supply == Take(c.supply, b.value.arrangement);
      FirstFitKeepsNonNegative(c, s, i, b.value);
      InvNewSupply(c, r.supply);
    }
  }

  lemma FirstFitKeepsNonNegative(c: Composer, s: Stem, i: int, b: Bouquet)
    requires Inv(c) && FirstFitAt(c, s, i, b)
    ensures NonNegative(Take(c.supply, b.arrangement))
  {
    var d := Bucket(c, s)[i];
    assert d in c.designs[s];
    SelectedArrangement(c.supply, d, b.arrangement);
  }

  /** Making a bouquet lowers the stems on hand by exactly the stems in the bouquet. */
  lemma BouquetForStemTotal(c: Composer, s: Stem)
    requires BouquetForStem(c, s).1.Some?
    ensures TotalSupply(BouquetForStem(c, s).0.supply) == TotalSupply(c.supply) - Sum(BouquetForStem(c, s).1.value.arrangement)
  {
    var b := BouquetForStem(c, s).1.value;
    var i :| FirstFitAt(c, s, i, b) && BouquetForStem(c, s).0.supply == Take(c.supply, b.arrangement);
    TotalSupplyTake(c.supply, b.arrangement);
  }

  /** The invariant does not depend on the supply beyond its non-negativity. */
  lemma InvNewSupply(c: Composer, supply: Supply)
    requires Inv(c) && NonNegative(supply)
    ensures Inv(c.(supply := supply))
  {
  }

  /** `b` is a valid bouquet of design `d` from the designs indexed under `s`. */
  predicate BouquetOf(c: Composer, s: Stem, d: Design, b: Bouquet) {
    && d in Bucket(c, s)
    && b.code == d.code
    && Fits(c.supply, d.stemCounts, b.arrangement)
    && Sum(b.arrangement) == d.total
    && s in (set o | o in b.arrangement :: o.stem)
  }

  // ---------------------------------------------------------------------------
  // The read loop: each stem is added, then a bouquet is sought for it.

  /**
    `add_stem` followed by `bouquet_for_stem`: the designs never change; a
    stem that completes nothing only counts itself in; a bouquet carries
    the code of a design indexed under `s` and as many stems as its total.
   */
  function Receive(c: Composer, s: Stem): (r: (Composer, Option<Bouquet>))
    ensures r.0.designs == c.designs
    ensures r.1.None? ==> r.0 == AddStem(c, s)
    ensures r.1.Some? ==> exists d :: d in Bucket(c, s) && d.code == r.1.value.code && Sum(r.1.value.arrangement) == d.total
  {
    var a := AddStem(c, s);
    assert Bucket(a, s) == Bucket(c, s);
    var r := BouquetForStem(a, s);
    if r.1.Some? then
      var i :| FirstFitAt(a, s, i, r.1.value);
      assert Bucket(c, s)[i] in Bucket(c, s);
      r
    else r
  }

  /** The stems drawn by a sequence of bouquets. */
  function Drawn(bs: seq<Bouquet>): int {
    if |bs| == 0 then 0 else Sum(bs[0].arrangement) + Drawn(bs[1..])
  }

  /** Feeding a sequence of stems: the final composer and the bouquets made, in order. */
  function Run(c: Composer, stems: seq<Stem>): (r: (Composer, seq<Bouquet>))
    ensures r.0.designs == c.designs
    ensures |r.1| <= |stems|
    decreases |stems|
  {
    if |stems| == 0 then (c, [])
    else
      var (next, b) := Receive(c, stems[0]);
      var (last, bs) := Run(next, stems[1..]);
      (last, (if b.Some? then [b.value] else []) + bs)
  }

  /**
    A stem that completes no bouquet only raises its own supply by one: no
    partial selection survives.
   */
  lemma ReceiveNone(c: Composer, s: Stem)
    requires Receive(c, s).1.None?
    ensures Receive(c, s).0 == AddStem(c, s)
    ensures Available(Receive(c, s).0.supply, s) == Available(c.supply, s) + 1
    ensures forall t :: t != s ==> Available(Receive(c, s).0.supply, t) == Available(c.supply, t)
  {
  }

  /**
    Conservation: after any sequence of stems, the stems on hand are those
    held before plus those received minus those drawn into bouquets, and the
    invariant still holds.
   */
  lemma {:induction false} RunConserves(c: Composer, stems: seq<Stem>)
    requires Inv(c)
    ensures Inv(Run(c, stems).0)
    ensures TotalSupply(Run(c, stems).0.supply) == TotalSupply(c.supply) + |stems| - Drawn(Run(c, stems).1)
    decreases |stems|
  {
    if |stems| > 0 {
      var a := AddStem(c, stems[0]);
      AddStemInv(c, stems[0]);
      AddStemTotal(c, stems[0]);
      var (next, b) := Receive(c, stems[0]);
      BouquetForStemInv(a, stems[0]);
      if b.Some? {
        BouquetForStemTotal(a, stems[0]);
      }
      RunConserves(next, stems[1..]);
      var bs := Run(next, stems[1..]).1;
      if b.Some? {
        assert ([b.value] + bs)[1..] == bs;
      } else {
        assert [] + bs == bs;
      }
    }
  }
}
