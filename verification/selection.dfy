/**
  Choosing stems for one design out of the supply (`_select_stems`) and
  removing the chosen stems from it (`_take_arrangement_from_supply`).
 */
module Selection {
  import opened Wrappers
  import opened Stems
  import opened Designs

  /** The supply: stems on hand per stem kind; a kind never seen counts as 0. */
  type Supply = map<Stem, int>

  function Available(supply: Supply, s: Stem): int {
    if s in supply then supply[s] else 0
  }

  predicate NonNegative(supply: Supply) {
    forall s :: s in supply ==> supply[s] >= 0
  }

  function Min3(a: int, b: int, c: int): int {
    Min(a, Min(b, c))
  }

  /** The sum of the counts of an arrangement. */
  function Sum(ws: seq<StemCount>): int {
    if |ws| == 0 then 0 else ws[0].count + Sum(ws[1..])
  }

  /**
    The loop of `_select_stems` from some option on: `remaining` is what the
    bouquet still needs. An option whose stem is out of supply fails the
    selection at once; otherwise it takes as many as the supply, its bounded
    maximum and the one-per-later-option reserve allow. The selection
    succeeds iff nothing remains after the last option. The supply is only
    read.
   */
  function Select(supply: Supply, options: seq<StemCount>, remaining: int): (r: Option<seq<StemCount>>)
    ensures r.Some? ==> |r.value| == |options| && Sum(r.value) == remaining
    ensures r.Some? ==> forall i :: 0 <= i < |options| ==> r.value[i].stem == options[i].stem
  {
    if |options| == 0 then
      if remaining == 0 then Some([]) else None
    else
      var available := Available(supply, options[0].stem);
      if available == 0 then None
      else
        var take := StepTake(supply, options, remaining);
        match Select(supply, options[1..], remaining - take)
        case None => None
        case Some(rest) =>
          var ws := [StemCount(options[0].stem, take)] + rest;
          assert ws[1..] == rest;
          Some(ws)
  }

  /**
    The take for the first of `options`: the supply, the bounded maximum and
    `remaining` less one stem per later option, whichever is least.
   */
  function StepTake(supply: Supply, options: seq<StemCount>, remaining: int): int
    requires |options| > 0
  {
    var maximumTake := remaining - (|options| - 1);
    Min3(Available(supply, options[0].stem), options[0].count, maximumTake)
  }

  /**
    Every option the loop visits, whether the selection later succeeds or
    fails: when `remaining` covers one stem per option left and the option's
    stem is on hand, the maximum take is positive, the take is at least one,
    and what remains after it still covers one stem per later option. The
    conclusion is the premise for the next option, so it holds at every
    step of a selection that starts from a constructed design.
   */
  lemma SelectStepKeepsReserve(supply: Supply, options: seq<StemCount>, remaining: int)
    requires |options| > 0 && remaining >= |options|
    requires Available(supply, options[0].stem) >= 1 && options[0].count >= 1
    ensures remaining - (|options| - 1) >= 1
    ensures StepTake(supply, options, remaining) >= 1
    ensures remaining - StepTake(supply, options, remaining) >= |options[1..]|
  {
  }

  /** `_select_stems`: the workspace on success, `None` for `false`. */
  function SelectStems(supply: Supply, d: Design): (r: Option<seq<StemCount>>)
    ensures r.Some? ==> |r.value| == |d.stemCounts| && Sum(r.value) == d.total
    ensures r.Some? ==> forall i :: 0 <= i < |d.stemCounts| ==> r.value[i].stem == d.stemCounts[i].stem
  {
    Select(supply, d.stemCounts, d.total)
  }

  // ---------------------------------------------------------------------------
  // What a selection promises.

  /** A non-negative supply and options whose bounded maxima are all positive. */
  predicate Options(supply: Supply, options: seq<StemCount>) {
    && NonNegative(supply)
    && forall i :: 0 <= i < |options| ==> options[i].count >= 1
  }

  /**
    An arrangement for these options: the same stems in the same order, each
    taken at least once, at most its bounded maximum, and at most what the
    supply holds of it.
   */
  predicate Fits(supply: Supply, options: seq<StemCount>, ws: seq<StemCount>) {
    && |ws| == |options|
    && forall i :: 0 <= i < |ws| ==>
         && ws[i].stem == options[i].stem
         && 1 <= ws[i].count <= options[i].count
         && ws[i].count <= Available(supply, ws[i].stem)
  }

  /**
    The arrangement never over-commits: after the first `i` takes, what
    remains is at least the number of options still to come, so each of
    them can still be given one stem.
   */
  predicate Reserves(ws: seq<StemCount>, remaining: int) {
    forall i :: 0 <= i <= |ws| ==> remaining - Sum(ws[..i]) >= |ws| - i
  }

  lemma {:induction false} SumAppendFront(w: StemCount, ws: seq<StemCount>, i: nat)
    requires i <= |ws|
    ensures Sum(([w] + ws)[..i + 1]) == w.count + Sum(ws[..i])
  {
    assert ([w] + ws)[..i + 1][1..] == ws[..i];
  }

  /** Successful selection yields a fitting arrangement that sums to `remaining` and keeps the reserve. */
  lemma {:induction false} SelectSound(supply: Supply, options: seq<StemCount>, remaining: int)
    requires Options(supply, options)
    requires remaining >= |options|
    requires Select(supply, options, remaining).Some?
    ensures Fits(supply, options, Select(supply, options, remaining).value)
    ensures Sum(Select(supply, options, remaining).value) == remaining
    ensures Reserves(Select(supply, options, remaining).value, remaining)
  {
    if |options| > 0 {
      var take := StepTake(supply, options, remaining);
      assert take >= 1;
      SelectSound(supply, options[1..], remaining - take);
      var rest := Select(supply, options[1..], remaining - take).value;
      var ws := Select(supply, options, remaining).value;
      assert ws == [StemCount(options[0].stem, take)] + rest;
      forall i | 0 <= i <= |ws| ensures remaining - Sum(ws[..i]) >= |ws| - i {
        if i > 0 {
          SumAppendFront(StemCount(options[0].stem, take), rest, i - 1);
        }
      }
    }
  }

  /** A selection fails whenever some option's stem is out of supply. */
  lemma {:induction false} SelectFailsOnEmpty(supply: Supply, options: seq<StemCount>, remaining: int, i: int)
    requires 0 <= i < |options|
    requires Available(supply, options[i].stem) == 0
    ensures Select(supply, options, remaining) == None
  {
    if i > 0 && Available(supply, options[0].stem) != 0 {
      var take := StepTake(supply, options, remaining);
      SelectFailsOnEmpty(supply, options[1..], remaining - take, i - 1);
    }
  }

  /** The most an option can contribute: its bounded maximum, capped by the supply. */
  function Cap(supply: Supply, option: StemCount): int {
    Min(Available(supply, option.stem), option.count)
  }

  function SumCaps(supply: Supply, options: seq<StemCount>): int {
    if |options| == 0 then 0 else Cap(supply, options[0]) + SumCaps(supply, options[1..])
  }

  lemma {:induction false} SumCapsAtLeastLength(supply: Supply, options: seq<StemCount>)
    requires forall i :: 0 <= i < |options| ==> Cap(supply, options[i]) >= 1
    ensures SumCaps(supply, options) >= |options|
  {
    if |options| > 0 {
      SumCapsAtLeastLength(supply, options[1..]);
    }
  }

  /**
    The greedy selection is exact: with every option's stem on hand, it
    succeeds iff the options together can supply `remaining` stems.
   */
  lemma {:induction false} SelectExact(supply: Supply, options: seq<StemCount>, remaining: int)
    requires Options(supply, options)
    requires remaining >= |options|
    ensures Select(supply, options, remaining).Some? <==>
      (forall i :: 0 <= i < |options| ==> Available(supply, options[i].stem) >= 1)
      && SumCaps(supply, options) >= remaining
  {
    if |options| == 0 {
    } else if Available(supply, options[0].stem) == 0 {
      SelectFailsOnEmpty(supply, options, remaining, 0);
    } else {
      var take := StepTake(supply, options, remaining);
      SelectExact(supply, options[1..], remaining - take);
      if forall i :: 0 <= i < |options| ==> Available(supply, options[i].stem) >= 1 {
        assert forall i :: 0 <= i < |options| - 1 ==> options[1..][i] == options[i + 1];
        if take < Cap(supply, options[0]) {
          SumCapsAtLeastLength(supply, options[1..]);
        }
      } else {
        var i :| 0 <= i < |options| && Available(supply, options[i].stem) < 1;
        assert Available(supply, options[i].stem) == 0 by {
          assert options[i].stem in supply ==> supply[options[i].stem] >= 0;
        }
        SelectFailsOnEmpty(supply, options, remaining, i);
      }
    }
  }

  lemma {:induction false} SumFitsAtMostCaps(supply: Supply, options: seq<StemCount>, ws: seq<StemCount>)
    requires Fits(supply, options, ws)
    ensures Sum(ws) <= SumCaps(supply, options)
    ensures Sum(ws) >= |ws|
  {
    if |ws| > 0 {
      SumFitsAtMostCaps(supply, options[1..], ws[1..]);
    }
  }

  /**
    The greedy selection is complete: if any arrangement for the options
    sums to `remaining`, the selection succeeds.
   */
  lemma SelectComplete(supply: Supply, options: seq<StemCount>, remaining: int, ws: seq<StemCount>)
    requires Options(supply, options)
    requires Fits(supply, options, ws) && Sum(ws) == remaining
    ensures Select(supply, options, remaining).Some?
  {
    SumFitsAtMostCaps(supply, options, ws);
    SelectExact(supply, options, remaining);
  }

  // ---------------------------------------------------------------------------
  // Taking an arrangement out of the supply.

  /** The total an arrangement holds of stem `s`. */
  function CountOf(ws: seq<StemCount>, s: Stem): int {
    if |ws| == 0 then 0
    else (if ws[0].stem == s then ws[0].count else 0) + CountOf(ws[1..], s)
  }

  /** `_take_arrangement_from_supply`: `supply[stem] -= count` for each entry, in order. */
  function Take(supply: Supply, ws: seq<StemCount>): (r: Supply)
    ensures forall s :: Available(r, s) == Available(supply, s) - CountOf(ws, s)
    decreases |ws|
  {
    if |ws| == 0 then supply
    else
      var s := ws[0].stem;
      Take(supply[s := Available(supply, s) - ws[0].count], ws[1..])
  }

  lemma {:induction false} CountOfFits(supply: Supply, options: seq<StemCount>, ws: seq<StemCount>, s: Stem)
    requires NonNegative(supply)
    requires Fits(supply, options, ws)
    requires SortedKeys(options)
    ensures CountOf(ws, s) <= Available(supply, s)
    ensures CountOf(ws, s) >= 0
  {
    if |ws| > 0 {
      assert SortedKeys(options[1..]);
      assert Fits(supply, options[1..], ws[1..]) by {
        forall i | 0 <= i < |ws| - 1 ensures ws[1..][i] == ws[i + 1] && options[1..][i] == options[i + 1] {
        }
      }
      CountOfFits(supply, options[1..], ws[1..], s);
      if ws[0].stem == s {
        assert CountOf(ws[1..], s) == 0 by {
          CountOfAbsent(ws[1..], s);
          forall i | 0 <= i < |ws[1..]| ensures ws[1..][i].stem != s {
            assert Less(options[0].stem, options[i + 1].stem);
          }
        }
      }
    }
  }

  lemma {:induction false} CountOfAbsent(ws: seq<StemCount>, s: Stem)
    requires forall i :: 0 <= i < |ws| ==> ws[i].stem != s
    ensures CountOf(ws, s) == 0
  {
    if |ws| > 0 {
      CountOfAbsent(ws[1..], s);
    }
  }

  /** Taking a fitting arrangement of distinct stems leaves the supply non-negative. */
  lemma TakeNonNegative(supply: Supply, options: seq<StemCount>, ws: seq<StemCount>)
    requires NonNegative(supply)
    requires Fits(supply, options, ws) && SortedKeys(options)
    ensures NonNegative(Take(supply, ws))
  {
    var r := Take(supply, ws);
    forall s | s in r ensures r[s] >= 0 {
      CountOfFits(supply, options, ws, s);
      assert Available(r, s) == r[s];
    }
  }

  // ---------------------------------------------------------------------------
  // The number of stems held in all.

  /** Some stem the supply has an entry for. */
  ghost function Pick(supply: Supply): (s: Stem)
    requires |supply| > 0
    ensures s in supply
  {
    var s :| s in supply; s
  }

  /** The sum of all supply counts. */
  ghost function TotalSupply(supply: Supply): int
    decreases |supply|
  {
    if |supply| == 0 then 0
    else
      var s := Pick(supply);
      supply[s] + TotalSupply(supply - {s})
  }

  /** The total does not depend on which key the sum starts from. */
  lemma {:induction false} TotalSupplyRemove(supply: Supply, s: Stem)
    requires s in supply
    ensures TotalSupply(supply) == supply[s] + TotalSupply(supply - {s})
    decreases |supply|
  {
    var t := Pick(supply);
    assert TotalSupply(supply) == supply[t] + TotalSupply(supply - {t});
    if t != s {
      var both := supply - {t} - {s};
      assert s in supply - {t} && t in supply - {s};
      TotalSupplyRemove(supply - {t}, s);
      assert TotalSupply(supply - {t}) == supply[s] + TotalSupply(both);
      TotalSupplyRemove(supply - {s}, t);
      assert supply - {s} - {t} == both;
      assert TotalSupply(supply - {s}) == supply[t] + TotalSupply(both);
    }
  }

  /** Setting one count changes the total by the difference. */
  lemma TotalSupplyUpdate(supply: Supply, s: Stem, v: int)
    ensures TotalSupply(supply[s := v]) == TotalSupply(supply) - Available(supply, s) + v
  {
    var u := supply[s := v];
    TotalSupplyRemove(u, s);
    assert u - {s} == supply - {s};
    if s in supply {
      TotalSupplyRemove(supply, s);
    } else {
      assert supply - {s} == supply;
    }
  }

  /** Taking an arrangement lowers the total by the arrangement's sum. */
  lemma {:induction false} TotalSupplyTake(supply: Supply, ws: seq<StemCount>)
    ensures TotalSupply(Take(supply, ws)) == TotalSupply(supply) - Sum(ws)
    decreases |ws|
  {
    if |ws| > 0 {
      var s := ws[0].stem;
      var v := Available(supply, s) - ws[0].count;
      var next := supply[s := v];
      assert Take(supply, ws) == Take(next, ws[1..]);
      TotalSupplyUpdate(supply, s, v);
      assert TotalSupply(next) == TotalSupply(supply) - ws[0].count;
      TotalSupplyTake(next, ws[1..]);
    }
  }
}
