/**
  A design: a bouquet recipe. It names, per species, the most stems of that
  species a bouquet may hold (its bounded maximum), and the total number of
  stems the bouquet must hold. All stems of a design share the design's size.
 */
module Designs {
  import opened Wrappers
  import opened Stems

  /** A stem together with a count: a bounded maximum in a design, a take in a bouquet. */
  datatype StemCount = StemCount(stem: Stem, count: int)

  /** `code` is the name letter followed by the size letter. */
  datatype Design = Design(code: string, stemCounts: seq<StemCount>, total: int)

  /** One `\d+[a-z]` group of a design spec: a raw maximum and a species. */
  datatype RawPair = RawPair(count: nat, species: char)

  /** The two `std::invalid_argument` cases of the `Design` constructor. */
  datatype DesignError = NotValidPattern | NonPositiveCount

  predicate IsName(c: char) {
    'A' <= c <= 'Z'
  }

  function Min(a: int, b: int): int {
    if a <= b then a else b
  }

  /** What the constructor guarantees of every `Design` object. */
  predicate ValidDesign(d: Design) {
    && |d.code| == 2
    && IsName(d.code[0])
    && IsSize(d.code[1])
    && |d.stemCounts| >= 1
    && SortedKeys(d.stemCounts)
    && (forall i :: 0 <= i < |d.stemCounts| ==>
          && Valid(d.stemCounts[i].stem)
          && d.stemCounts[i].stem.size == d.code[1]
          && 1 <= d.stemCounts[i].count <= d.total - |d.stemCounts| + 1)
  }

  /** Every design holds at least one stem per species it names. */
  lemma ValidDesignTotal(d: Design)
    requires ValidDesign(d)
    ensures d.total >= |d.stemCounts| >= 1
  {
    assert 1 <= d.stemCounts[0].count <= d.total - |d.stemCounts| + 1;
  }

  // ---------------------------------------------------------------------------
  // Sorted association lists: the model of `std::map<Stem, int>`.

  /** Keys strictly ascending in `Less`, hence no key twice. */
  predicate SortedKeys(m: seq<StemCount>) {
    forall i, j :: 0 <= i < j < |m| ==> Less(m[i].stem, m[j].stem)
  }

  /** The count stored under `s`, if any (first entry wins). */
  function Lookup(m: seq<StemCount>, s: Stem): Option<int> {
    if |m| == 0 then None
    else if m[0].stem == s then Some(m[0].count)
    else Lookup(m[1..], s)
  }

  lemma {:induction false} LookupNone(m: seq<StemCount>, s: Stem)
    ensures Lookup(m, s).None? <==> forall i :: 0 <= i < |m| ==> m[i].stem != s
  {
    if |m| > 0 {
      LookupNone(m[1..], s);
      assert forall i :: 1 <= i < |m| ==> m[i] == m[1..][i - 1];
    }
  }

  lemma {:induction false} LookupAt(m: seq<StemCount>, i: int)
    requires SortedKeys(m)
    requires 0 <= i < |m|
    ensures Lookup(m, m[i].stem) == Some(m[i].count)
  {
    if i > 0 {
      assert Less(m[0].stem, m[i].stem);
      LessIsStrictTotalOrder(m[0].stem, m[i].stem, m[i].stem);
      assert m[1..][i - 1] == m[i];
      LookupAt(m[1..], i - 1);
    }
  }

  /**
    `map::emplace`: inserts `e` at its sorted place unless its key is already
    present, in which case the map is left as it was.
   */
  function Emplace(m: seq<StemCount>, e: StemCount): (r: seq<StemCount>)
    requires SortedKeys(m)
    ensures SortedKeys(r)
    ensures forall s :: Lookup(r, s) == if s == e.stem && Lookup(m, s).None? then Some(e.count) else Lookup(m, s)
    ensures |r| == if Lookup(m, e.stem).None? then |m| + 1 else |m|
    ensures forall k :: 0 <= k < |r| ==> r[k] == e || r[k] in m
  {
    if |m| == 0 then [e]
    else if m[0].stem == e.stem then m
    else if Less(e.stem, m[0].stem) then
      assert Lookup(m, e.stem).None? by {
        forall i | 0 <= i < |m| ensures m[i].stem != e.stem {
          LessIsStrictTotalOrder(e.stem, m[0].stem, m[i].stem);
        }
        LookupNone(m, e.stem);
      }
      [e] + m
    else
      var rest := Emplace(m[1..], e);
      LessIsStrictTotalOrder(e.stem, m[0].stem, m[0].stem);
      assert forall k :: 0 <= k < |rest| ==> Less(m[0].stem, rest[k].stem);
      [m[0]] + rest
  }

  // ---------------------------------------------------------------------------
  // The raw maxima: lines 96-101 of the constructor.

  /** The count of the first group naming `species`: the reference meaning of `emplace`. */
  function FirstCount(pairs: seq<RawPair>, species: char): Option<nat> {
    if |pairs| == 0 then None
    else if pairs[0].species == species then Some(pairs[0].count)
    else FirstCount(pairs[1..], species)
  }

  /** The distinct species a spec names. */
  function SpeciesOf(pairs: seq<RawPair>): set<char> {
    set p | p in pairs :: p.species
  }

  lemma {:induction false} FirstCountSnoc(pairs: seq<RawPair>, p: RawPair, species: char)
    ensures FirstCount(pairs + [p], species) ==
      if FirstCount(pairs, species).Some? then FirstCount(pairs, species)
      else if p.species == species then Some(p.count)
      else None
  {
    if |pairs| > 0 {
      assert (pairs + [p])[1..] == pairs[1..] + [p];
      FirstCountSnoc(pairs[1..], p, species);
    }
  }

  lemma {:induction false} FirstCountIn(pairs: seq<RawPair>, species: char)
    ensures FirstCount(pairs, species).Some? <==> species in SpeciesOf(pairs)
  {
    if |pairs| > 0 {
      FirstCountIn(pairs[1..], species);
      assert SpeciesOf(pairs) == {pairs[0].species} + SpeciesOf(pairs[1..]) by {
        assert pairs == [pairs[0]] + pairs[1..];
      }
    }
  }

  /** The entry the raw map should hold under `s`: the first count of its species, in the design's size. */
  function RawEntry(size: char, pairs: seq<RawPair>, s: Stem): Option<int> {
    if s.size != size then None
    else match FirstCount(pairs, s.species)
      case None => None
      case Some(c) => Some(c as int)
  }

  /**
    The `std::map<Stem, int>` built from the groups of a spec, in spec order:
    one entry per distinct species, ascending, holding the first count given.
   */
  function RawStemCounts(size: char, pairs: seq<RawPair>): (raw: seq<StemCount>)
    ensures SortedKeys(raw)
    ensures forall s :: Lookup(raw, s) == RawEntry(size, pairs, s)
    ensures |raw| == |SpeciesOf(pairs)|
    ensures forall k :: 0 <= k < |raw| ==> raw[k].stem.size == size && raw[k].stem.species in SpeciesOf(pairs)
    decreases |pairs|
  {
    if |pairs| == 0 then []
    else
      var init := pairs[..|pairs| - 1];
      var p := pairs[|pairs| - 1];
      assert pairs == init + [p];
      var m := RawStemCounts(size, init);
      var r := Emplace(m, StemCount(Stem(p.species, size), p.count));
      forall s ensures Lookup(r, s) == RawEntry(size, pairs, s) {
        FirstCountSnoc(init, p, s.species);
      }
      assert SpeciesOf(pairs) == SpeciesOf(init) + {p.species};
      FirstCountIn(init, p.species);
      r
  }

  // ---------------------------------------------------------------------------
  // The bounded maxima: lines 103-110 of the constructor.

  /** Clamps every raw maximum to `anyMax`, failing on the first clamped value below 1. */
  function Bound(raw: seq<StemCount>, anyMax: int): (r: Result<seq<StemCount>, DesignError>)
    ensures r.Success? <==> forall i :: 0 <= i < |raw| ==> Min(raw[i].count, anyMax) >= 1
    ensures r.Failure? ==> r.error == NonPositiveCount
    ensures r.Success? ==> |r.value| == |raw|
    ensures r.Success? ==> forall i :: 0 <= i < |raw| ==>
      r.value[i] == StemCount(raw[i].stem, Min(raw[i].count, anyMax))
  {
    if |raw| == 0 then Success([])
    else
      var stemMax := Min(raw[0].count, anyMax);
      if stemMax < 1 then Failure(NonPositiveCount)
      else
        var rest :- Bound(raw[1..], anyMax);
        Success([StemCount(raw[0].stem, stemMax)] + rest)
  }

  /** What the regular expression guarantees of the parts it splits out. */
  predicate WellFormedParts(name: char, size: char, pairs: seq<RawPair>) {
    IsName(name) && IsSize(size) && |pairs| >= 1 && forall p :: p in pairs ==> IsSpecies(p.species)
  }

  /** Every raw maximum that `emplace` keeps is at least 1. */
  predicate FirstCountsPositive(pairs: seq<RawPair>) {
    forall species :: FirstCount(pairs, species).Some? ==> FirstCount(pairs, species).value >= 1
  }

  /** Clamps an optional count to `anyMax`. */
  function Clamp(o: Option<int>, anyMax: int): Option<int> {
    match o
    case None => None
    case Some(c) => Some(Min(c, anyMax))
  }

  /**
    The bounded maximum a design built from these parts stores under `s`:
    `min(first count, total - k + 1)` with `k` the number of distinct species.
   */
  function BoundedEntry(size: char, pairs: seq<RawPair>, total: int, s: Stem): Option<int> {
    Clamp(RawEntry(size, pairs, s), total - |SpeciesOf(pairs)| + 1)
  }

  /**
    The `Design` constructor after the regular expression has split the spec:
    `name` and `size` form the code, `pairs` are the `\d+[a-z]` groups in
    order, `total` the trailing number.
   */
  function MakeDesign(name: char, size: char, pairs: seq<RawPair>, total: nat): (r: Result<Design, DesignError>)
    requires WellFormedParts(name, size, pairs)
    ensures r.Success? <==> total >= |SpeciesOf(pairs)| && FirstCountsPositive(pairs)
    ensures r.Failure? ==> r.error == NonPositiveCount
    ensures r.Success? ==> ValidDesign(r.value)
    ensures r.Success? ==> r.value.code == [name, size] && r.value.total == total
    ensures r.Success? ==> |r.value.stemCounts| == |SpeciesOf(pairs)|
    ensures r.Success? ==> forall s :: Lookup(r.value.stemCounts, s) == BoundedEntry(size, pairs, total, s)
  {
    var raw := RawStemCounts(size, pairs);
    var anyMax := total - |raw| + 1;
    var b := Bound(raw, anyMax);
    MakeDesignFacts(name, size, pairs, total, raw, b);
    match b
    case Failure(e) => Failure(e)
    case Success(bounded) => Success(Design([name, size], bounded, total))
  }

  lemma BoundedIsValid(name: char, size: char, pairs: seq<RawPair>, total: nat, raw: seq<StemCount>, bounded: seq<StemCount>)
    requires WellFormedParts(name, size, pairs)
    requires raw == RawStemCounts(size, pairs)
    requires Bound(raw, total - |raw| + 1) == Success(bounded)
    ensures ValidDesign(Design([name, size], bounded, total))
  {
    var anyMax := total - |raw| + 1;
    assert |raw| >= 1 by {
      assert pairs[0].species in SpeciesOf(pairs);
    }
    forall i | 0 <= i < |bounded|
      ensures Valid(bounded[i].stem) && bounded[i].stem.size == size
      ensures 1 <= bounded[i].count <= total - |bounded| + 1
    {
      assert bounded[i] == StemCount(raw[i].stem, Min(raw[i].count, anyMax));
      assert raw[i].stem.species in SpeciesOf(pairs);
    }
    assert SortedKeys(bounded) by {
      forall i, j | 0 <= i < j < |bounded| ensures Less(bounded[i].stem, bounded[j].stem) {
        assert bounded[i].stem == raw[i].stem && bounded[j].stem == raw[j].stem;
      }
    }
  }

  lemma MakeDesignFacts(name: char, size: char, pairs: seq<RawPair>, total: nat, raw: seq<StemCount>, b: Result<seq<StemCount>, DesignError>)
    requires WellFormedParts(name, size, pairs)
    requires raw == RawStemCounts(size, pairs)
    requires b == Bound(raw, total - |raw| + 1)
    ensures b.Success? <==> total >= |SpeciesOf(pairs)| && FirstCountsPositive(pairs)
    ensures b.Failure? ==> b.error == NonPositiveCount
    ensures b.Success? ==> |b.value| == |SpeciesOf(pairs)|
    ensures b.Success? ==> ValidDesign(Design([name, size], b.value, total))
    ensures b.Success? ==> forall s :: Lookup(b.value, s) == BoundedEntry(size, pairs, total, s)
  {
    MakeDesignSucceeds(size, pairs, total, raw);
    if b.Success? {
      MakeDesignLookup(size, pairs, total, raw, b.value);
      BoundedIsValid(name, size, pairs, total, raw, b.value);
    }
  }

  lemma MakeDesignSucceeds(size: char, pairs: seq<RawPair>, total: nat, raw: seq<StemCount>)
    requires |pairs| >= 1
    requires raw == RawStemCounts(size, pairs)
    ensures Bound(raw, total - |raw| + 1).Success? <==> total >= |raw| && FirstCountsPositive(pairs)
  {
    assert |raw| >= 1 by {
      assert pairs[0].species in SpeciesOf(pairs);
    }
    RawCountsPositive(size, pairs, raw);
    BoundSucceeds(raw, total - |raw| + 1);
  }

  lemma MakeDesignLookup(size: char, pairs: seq<RawPair>, total: nat, raw: seq<StemCount>, bounded: seq<StemCount>)
    requires |raw| == |SpeciesOf(pairs)|
    requires forall s :: Lookup(raw, s) == RawEntry(size, pairs, s)
    requires Bound(raw, total - |raw| + 1) == Success(bounded)
    ensures forall s :: Lookup(bounded, s) == BoundedEntry(size, pairs, total, s)
  {
    var anyMax := total - |raw| + 1;
    BoundLookup(raw, anyMax, bounded);
    forall s ensures Lookup(bounded, s) == BoundedEntry(size, pairs, total, s) {
      assert Lookup(bounded, s) == Clamp(Lookup(raw, s), anyMax);
      assert Lookup(raw, s) == RawEntry(size, pairs, s);
    }
  }

  lemma BoundSucceeds(raw: seq<StemCount>, anyMax: int)
    requires |raw| >= 1
    ensures Bound(raw, anyMax).Success? <==> anyMax >= 1 && forall i :: 0 <= i < |raw| ==> raw[i].count >= 1
  {
    if Bound(raw, anyMax).Success? {
      assert Min(raw[0].count, anyMax) >= 1;
    }
  }

  /** The raw map holds only positive counts exactly when every first count is positive. */
  lemma RawCountsPositive(size: char, pairs: seq<RawPair>, raw: seq<StemCount>)
    requires raw == RawStemCounts(size, pairs)
    ensures FirstCountsPositive(pairs) <==> forall i :: 0 <= i < |raw| ==> raw[i].count >= 1
  {
    forall i | 0 <= i < |raw|
      ensures FirstCount(pairs, raw[i].stem.species).Some?
      ensures FirstCount(pairs, raw[i].stem.species).value == raw[i].count
    {
      LookupAt(raw, i);
      assert RawEntry(size, pairs, raw[i].stem) == Some(raw[i].count);
    }
    if forall i :: 0 <= i < |raw| ==> raw[i].count >= 1 {
      forall species | FirstCount(pairs, species).Some?
        ensures FirstCount(pairs, species).value >= 1
      {
        var s := Stem(species, size);
        assert Lookup(raw, s).Some?;
        LookupNone(raw, s);
      }
    }
  }

  lemma {:induction false} BoundLookup(raw: seq<StemCount>, anyMax: int, bounded: seq<StemCount>)
    requires Bound(raw, anyMax) == Success(bounded)
    ensures forall s :: Lookup(bounded, s) == Clamp(Lookup(raw, s), anyMax)
  {
    if |raw| > 0 {
      BoundLookup(raw[1..], anyMax, bounded[1..]);
    }
  }
}
