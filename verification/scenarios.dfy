/**
  Worked examples: malformed input, the duplicate-species policy, a rejected
  design, and one complete bouquet from an empty composer.
 */
module Scenarios {
  import opened Wrappers
  import opened Stems
  import opened Designs
  import opened DesignParser
  import opened Selection
  import opened Composers

  lemma MalformedStems()
    ensures ParseStem("a") == Failure(WrongLength(1))
    ensures ParseStem("AS") == Failure(SpeciesOutOfRange('A'))
    ensures ParseStem("aM") == Failure(SizeNotSL('M'))
    ensures ParseStem("aS") == Success(Stem('a', 'S'))
  {
  }

  /** A lower-case name does not match the grammar. */
  lemma MalformedDesign()
    ensures ParseDesign("as3b5") == Failure(NotValidPattern)
    ensures ParseDesign("AS3a") == Failure(NotValidPattern)
    ensures ParseDesign("AS5") == Failure(NotValidPattern)
  {
  }

  const A: Design := Design("AS", [StemCount(Stem('a', 'S'), 3), StemCount(Stem('b', 'S'), 2)], 5)

  const Pairs: seq<RawPair> := [RawPair(3, 'a'), RawPair(2, 'b')]

  lemma RenderExample()
    ensures RenderSpec('A', 'S', Pairs, 5) == "AS3a2b5"
  {
    assert Decimal(3) == "3" && Decimal(2) == "2" && Decimal(5) == "5";
  }

  lemma RawExample()
    ensures RawStemCounts('S', Pairs) == A.stemCounts
  {
    var a := StemCount(Stem('a', 'S'), 3);
    var b := StemCount(Stem('b', 'S'), 2);
    assert Pairs[..1] == [RawPair(3, 'a')];
    assert Pairs[..1][..0] == [];
    assert RawStemCounts('S', Pairs[..1]) == [a];
    assert Emplace([a], b) == [a, b];
  }

  lemma MakeExample()
    ensures MakeDesign('A', 'S', Pairs, 5) == Success(A)
  {
    RawExample();
    var r := Bound(A.stemCounts, 4);
    assert Min(A.stemCounts[0].count, 4) >= 1 && Min(A.stemCounts[1].count, 4) >= 1;
    assert r.Success?;
    assert r.value[0] == A.stemCounts[0] && r.value[1] == A.stemCounts[1];
    assert r.value == A.stemCounts;
  }

  lemma ParseExample()
    ensures ParseDesign("AS3a2b5") == Success(A)
  {
    RenderExample();
    ParseRenderSpec('A', 'S', Pairs, 5);
    MakeExample();
  }

  /** A species named twice keeps its first count. */
  lemma DuplicateSpeciesKeepsFirst()
    ensures MakeDesign('A', 'S', [RawPair(3, 'a'), RawPair(5, 'a')], 4)
         == Success(Design("AS", [StemCount(Stem('a', 'S'), 3)], 4))
  {
    var pairs := [RawPair(3, 'a'), RawPair(5, 'a')];
    assert SpeciesOf(pairs) == {'a'};
    assert FirstCount(pairs, 'a') == Some(3);
    var r := MakeDesign('A', 'S', pairs, 4);
    assert r.Success?;
    var d := r.value;
    assert |d.stemCounts| == 1;
    assert Lookup(d.stemCounts, Stem('a', 'S')) == Some(3);
    assert d.stemCounts[0].stem.size == 'S';
    assert d.stemCounts[0].stem.species in SpeciesOf(pairs) by {
      assert Valid(d.stemCounts[0].stem);
      LookupAt(d.stemCounts, 0);
      assert BoundedEntry('S', pairs, 4, d.stemCounts[0].stem).Some?;
    }
    assert d.stemCounts[0].stem == Stem('a', 'S');
    assert d.stemCounts[0].count == 3;
    assert d.stemCounts == [StemCount(Stem('a', 'S'), 3)];
    assert d.code == "AS";
  }

  /** Two species cannot fit into a bouquet of one stem. */
  lemma UnsatisfiableDesign()
    ensures MakeDesign('A', 'S', Pairs, 1) == Failure(NonPositiveCount)
    ensures MakeDesign('A', 'S', [RawPair(0, 'a')], 1) == Failure(NonPositiveCount)
  {
    assert SpeciesOf(Pairs) == {'a', 'b'};
    assert FirstCount([RawPair(0, 'a')], 'a') == Some(0);
  }

  const aS: Stem := Stem('a', 'S')
  const bS: Stem := Stem('b', 'S')

  lemma ValidA()
    ensures ValidDesign(A)
    ensures StemsOf(A) == {aS, bS}
  {
    assert A.stemCounts[0] in A.stemCounts && A.stemCounts[1] in A.stemCounts;
  }

  /** A stem that completes no bouquet passes the rest of the run on unchanged. */
  lemma RunQuiet(c: Composer, stems: seq<Stem>)
    requires |stems| > 0 && Receive(c, stems[0]).1.None?
    ensures Run(c, stems) == Run(AddStem(c, stems[0]), stems[1..])
  {
    assert [] + Run(AddStem(c, stems[0]), stems[1..]).1 == Run(AddStem(c, stems[0]), stems[1..]).1;
  }

  function C0(): Composer { AddDesign(Empty, A) }
  function C3(): Composer { AddStem(AddStem(AddStem(C0(), aS), aS), aS) }
  function C4(): Composer { AddStem(C3(), bS) }

  lemma BucketsOfA()
    ensures Bucket(C0(), aS) == [A] && Bucket(C0(), bS) == [A]
    ensures Bucket(C3(), aS) == [A] && Bucket(C4(), bS) == [A]
  {
    ValidA();
    AddDesignBuckets(Empty, A);
  }

  /** Three `aS` stems alone complete nothing: there is no `bS` yet. */
  lemma FirstThreeQuiet()
    ensures Run(C0(), [aS, aS, aS, bS, bS]) == Run(C3(), [bS, bS])
  {
    BucketsOfA();
    var c1 := AddStem(C0(), aS);
    var c2 := AddStem(c1, aS);
    SelectFailsOnEmpty(c1.supply, A.stemCounts, A.total, 1);
    SelectFailsOnEmpty(c2.supply, A.stemCounts, A.total, 1);
    SelectFailsOnEmpty(C3().supply, A.stemCounts, A.total, 1);
    RunQuiet(C0(), [aS, aS, aS, bS, bS]);
    assert [aS, aS, aS, bS, bS][1..] == [aS, aS, bS, bS];
    RunQuiet(c1, [aS, aS, bS, bS]);
    assert [aS, aS, bS, bS][1..] == [aS, bS, bS];
    RunQuiet(c2, [aS, bS, bS]);
    assert [aS, bS, bS][1..] == [bS, bS];
  }

  /** With three `aS` and one `bS` the selection falls one stem short. */
  lemma FourthQuiet()
    ensures Run(C3(), [bS, bS]) == Run(C4(), [bS])
  {
    BucketsOfA();
    var c4 := C4();
    assert Available(c4.supply, aS) == 3 && Available(c4.supply, bS) == 1;
    assert Min3(3, 3, 4) == 3;
    assert Select(c4.supply, A.stemCounts[1..], 2) == None;
    assert SelectStems(c4.supply, A) == None;
    RunQuiet(C3(), [bS, bS]);
    assert [bS, bS][1..] == [bS];
  }

  /** The fifth stem completes `AS3a2b` and empties the supply. */
  lemma FifthCompletes()
    ensures var (c, bs) := Run(C4(), [bS]);
      && bs == [Bouquet("AS", [StemCount(aS, 3), StemCount(bS, 2)])]
      && Available(c.supply, aS) == 0 && Available(c.supply, bS) == 0
  {
    BucketsOfA();
    var c5 := AddStem(C4(), bS);
    var ws := [StemCount(aS, 3), StemCount(bS, 2)];
    assert Available(c5.supply, aS) == 3 && Available(c5.supply, bS) == 2;
    assert A.stemCounts[1..] == [StemCount(bS, 2)];
    var last := [StemCount(bS, 2)];
    assert last[1..] == [];
    assert Available(c5.supply, last[0].stem) == 2;
    assert Min3(2, last[0].count, 2 - (|last| - 1)) == 2;
    assert Select(c5.supply, last[1..], 0) == Some([]);
    assert [StemCount(bS, 2)] + [] == last;
    assert Select(c5.supply, last, 2) == Some(last);
    assert Min3(3, 3, 4) == 3;
    assert [StemCount(aS, 3)] + last == ws;
    assert SelectStems(c5.supply, A) == Some(ws);
    var b := Bouquet("AS", ws);
    var c6 := c5.(supply := Take(c5.supply, ws));
    assert Receive(C4(), bS) == (c6, Some(b));
    assert Run(c6, []) == (c6, []);
    assert [bS][1..] == [] && [b] + [] == [b];
    assert Run(C4(), [bS]) == (c6, [b]);
  }

  /**
    With design `AS3a2b5` registered, three `aS` and two `bS` stems make
    bouquet `AS3a2b` on the fifth stem and leave nothing on hand.
   */
  lemma EndToEnd()
    ensures var (c, bs) := Run(AddDesign(Empty, A), [aS, aS, aS, bS, bS]);
      && bs == [Bouquet("AS", [StemCount(aS, 3), StemCount(bS, 2)])]
      && Available(c.supply, aS) == 0 && Available(c.supply, bS) == 0
  {
    FirstThreeQuiet();
    FourthQuiet();
    FifthCompletes();
  }

  const X: Design := Design("AS", [StemCount(Stem('a', 'S'), 1)], 1)
  const Y: Design := Design("BS", [StemCount(Stem('a', 'S'), 1)], 1)

  /**
    First fit: with two designs that a single `aS` completes, the one
    registered first wins and the other is not tried.
   */
  lemma FirstRegisteredWins()
    ensures Receive(AddDesign(AddDesign(Empty, X), Y), aS).1 == Some(Bouquet("AS", [StemCount(aS, 1)]))
  {
    assert X.stemCounts[0] in X.stemCounts && Y.stemCounts[0] in Y.stemCounts;
    var c := AddDesign(Empty, X);
    AddDesignBuckets(Empty, X);
    AddDesignBuckets(c, Y);
    assert Bucket(AddDesign(c, Y), aS) == [X, Y];
    var a := AddStem(AddDesign(c, Y), aS);
    assert Available(a.supply, aS) == 1;
    assert X.stemCounts[1..] == [];
    assert Select(a.supply, X.stemCounts[1..], 0) == Some([]);
    assert Available(a.supply, X.stemCounts[0].stem) == 1;
    assert Min3(1, X.stemCounts[0].count, X.total - (|X.stemCounts| - 1)) == 1;
    assert [StemCount(aS, 1)] + [] == [StemCount(aS, 1)];
    assert SelectStems(a.supply, X) == Some([StemCount(aS, 1)]);
  }
}
