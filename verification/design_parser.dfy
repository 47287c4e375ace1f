/**
  The textual side of the `Design` constructor: matching a spec such as
  `AS3a2b5` against the grammar `([A-Z])([SL])((?:\d+[a-z])+)(\d+)` and
  converting the digit runs the way `stoi` does.
 */
module DesignParser {
  import opened Wrappers
  import opened Stems
  import opened Designs

  predicate IsDigit(c: char) {
    '0' <= c <= '9'
  }

  predicate AllDigits(s: string) {
    forall i :: 0 <= i < |s| ==> IsDigit(s[i])
  }

  /** The length of the leading run of digits of `s`. */
  function DigitRun(s: string): (n: nat)
    ensures n <= |s|
    ensures AllDigits(s[..n])
    ensures n < |s| ==> !IsDigit(s[n])
  {
    if |s| == 0 || !IsDigit(s[0]) then 0
    else
      var n := 1 + DigitRun(s[1..]);
      assert s[..n] == [s[0]] + s[1..][..n - 1];
      n
  }

  /** The number a run of decimal digits denotes (`stoi` without its overflow check). */
  function Value(s: string): nat
    requires AllDigits(s)
  {
    if |s| == 0 then 0
    else Value(s[..|s| - 1]) * 10 + (s[|s| - 1] as int - '0' as int)
  }

  /**
    Splits `(\d+[a-z])*\d+` into its `\d+[a-z]` groups and the trailing
    number; `None` when the text is not in that language.
   */
  function ParseGroups(s: string): Option<(seq<RawPair>, nat)>
    decreases |s|
  {
    var n := DigitRun(s);
    if n == 0 then None
    else if n == |s| then Some(([], Value(s)))
    else if !IsSpecies(s[n]) then None
    else
      match ParseGroups(s[n + 1..])
      case None => None
      case Some((pairs, total)) => Some(([RawPair(Value(s[..n]), s[n])] + pairs, total))
  }

  /** Every group the splitter returns names a species in `a`..`z`. */
  lemma {:induction false} ParseGroupsSpecies(s: string)
    requires ParseGroups(s).Some?
    ensures forall p :: p in ParseGroups(s).value.0 ==> IsSpecies(p.species)
    decreases |s|
  {
    var n := DigitRun(s);
    if n < |s| {
      ParseGroupsSpecies(s[n + 1..]);
    }
  }

  /**
    The `Design(const std::string)` constructor: a spec that does not match
    the grammar is rejected as `NotValidPattern`; a matching one is built by
    `MakeDesign` from the parts the match splits out.
   */
  function ParseDesign(spec: string): (r: Result<Design, DesignError>)
    ensures r.Success? ==> |spec| >= 2 && ValidDesign(r.value) && r.value.code == spec[..2]
    ensures |spec| < 2 || !IsName(spec[0]) || !IsSize(spec[1]) ==> r == Failure(NotValidPattern)
  {
    if |spec| < 2 || !IsName(spec[0]) || !IsSize(spec[1]) then
      Failure(NotValidPattern)
    else
      match ParseGroups(spec[2..])
      case None => Failure(NotValidPattern)
      case Some((pairs, total)) =>
        if |pairs| == 0 then Failure(NotValidPattern)
        else
          ParseGroupsSpecies(spec[2..]);
          MakeDesign(spec[0], spec[1], pairs, total)
  }

  // ---------------------------------------------------------------------------
  // Rendering a spec, the inverse of parsing.

  function DigitChar(d: nat): (c: char)
    requires d < 10
    ensures IsDigit(c)
  {
    ('0' as int + d) as char
  }

  /** The decimal numeral of `n`, without leading zeros. */
  function Decimal(n: nat): (s: string)
    ensures |s| >= 1 && AllDigits(s)
  {
    if n < 10 then [DigitChar(n)]
    else Decimal(n / 10) + [DigitChar(n % 10)]
  }

  lemma {:induction false} ValueDecimal(n: nat)
    ensures Value(Decimal(n)) == n
  {
    if n >= 10 {
      var s := Decimal(n);
      assert s[..|s| - 1] == Decimal(n / 10);
      ValueDecimal(n / 10);
    }
  }

  /** The text of the groups and total of a spec. */
  function RenderGroups(pairs: seq<RawPair>, total: nat): string {
    if |pairs| == 0 then Decimal(total)
    else Decimal(pairs[0].count) + [pairs[0].species] + RenderGroups(pairs[1..], total)
  }

  /** The text of a design spec with these parts. */
  function RenderSpec(name: char, size: char, pairs: seq<RawPair>, total: nat): string {
    [name, size] + RenderGroups(pairs, total)
  }

  lemma {:induction false} DigitRunAfterNumeral(d: string, rest: string)
    requires AllDigits(d)
    requires |rest| == 0 || !IsDigit(rest[0])
    ensures DigitRun(d + rest) == |d|
    decreases |d|
  {
    if |d| == 0 {
      assert d + rest == rest;
    } else {
      var s := d + rest;
      assert s[0] == d[0] && IsDigit(s[0]);
      assert s[1..] == d[1..] + rest;
      DigitRunAfterNumeral(d[1..], rest);
    }
  }

  /** Splitting rendered groups gives back the groups and the total. */
  lemma {:induction false} ParseRenderGroups(pairs: seq<RawPair>, total: nat)
    requires forall p :: p in pairs ==> IsSpecies(p.species)
    ensures ParseGroups(RenderGroups(pairs, total)) == Some((pairs, total))
  {
    if |pairs| == 0 {
      DigitRunAfterNumeral(Decimal(total), []);
      assert Decimal(total) + [] == Decimal(total);
      ValueDecimal(total);
    } else {
      var d := Decimal(pairs[0].count);
      var tail := RenderGroups(pairs[1..], total);
      var s := RenderGroups(pairs, total);
      assert s == d + ([pairs[0].species] + tail);
      DigitRunAfterNumeral(d, [pairs[0].species] + tail);
      assert s[..|d|] == d;
      assert s[|d|] == pairs[0].species;
      assert s[|d| + 1..] == tail;
      ValueDecimal(pairs[0].count);
      ParseRenderGroups(pairs[1..], total);
      assert [pairs[0]] + pairs[1..] == pairs;
    }
  }

  /** Parsing a rendered spec is the same as constructing from its parts. */
  lemma ParseRenderSpec(name: char, size: char, pairs: seq<RawPair>, total: nat)
    requires WellFormedParts(name, size, pairs)
    ensures ParseDesign(RenderSpec(name, size, pairs, total)) == MakeDesign(name, size, pairs, total)
  {
    var spec := RenderSpec(name, size, pairs, total);
    assert spec[2..] == RenderGroups(pairs, total);
    ParseRenderGroups(pairs, total);
  }
}
