/** A stem: one flower of some species (`a`..`z`) in one of two sizes (`S`, `L`). */
module Stems {
  import opened Wrappers

  datatype Stem = Stem(species: char, size: char)

  predicate IsSpecies(c: char) {
    'a' <= c <= 'z'
  }

  predicate IsSize(c: char) {
    c == 'S' || c == 'L'
  }

  /** The invariant the `Stem` constructor establishes. */
  predicate Valid(s: Stem) {
    IsSpecies(s.species) && IsSize(s.size)
  }

  /** The three `std::invalid_argument` cases of the constructor, in the order it checks them. */
  datatype StemError =
    | WrongLength(length: nat)
    | SpeciesOutOfRange(species: char)
    | SizeNotSL(size: char)

  /** The 2-character token a stem is written as (species, then size). */
  function Token(s: Stem): (t: string)
    ensures |t| == 2
  {
    [s.species, s.size]
  }

  /** The `Stem(const std::string)` constructor: validates a 2-character token. */
  function ParseStem(spec: string): (r: Result<Stem, StemError>)
    ensures r.Success? <==> |spec| == 2 && IsSpecies(spec[0]) && IsSize(spec[1])
    ensures r.Success? ==> Valid(r.value) && Token(r.value) == spec
    ensures |spec| != 2 ==> r == Failure(WrongLength(|spec|))
    ensures |spec| == 2 && !IsSpecies(spec[0]) ==> r == Failure(SpeciesOutOfRange(spec[0]))
    ensures |spec| == 2 && IsSpecies(spec[0]) && !IsSize(spec[1]) ==> r == Failure(SizeNotSL(spec[1]))
  {
    if |spec| != 2 then
      Failure(WrongLength(|spec|))
    else
      var species := spec[0];
      var size := spec[1];
      if !IsSpecies(species) then
        Failure(SpeciesOutOfRange(species))
      else if !IsSize(size) then
        Failure(SizeNotSL(size))
      else
        Success(Stem(species, size))
  }

  /** Parsing the token of a valid stem gives the stem back. */
  lemma ParseToken(s: Stem)
    requires Valid(s)
    ensures ParseStem(Token(s)) == Success(s)
  {
  }

  /** The defaulted `operator<=>`: member-wise, species first, then size. */
  predicate Less(a: Stem, b: Stem)
    ensures Less(a, b) ==> a != b && a.species <= b.species
    ensures a.species < b.species ==> Less(a, b)
  {
    a.species < b.species || (a.species == b.species && a.size < b.size)
  }

  /** `Less` is a strict total order whose equivalence is the defaulted `operator==`. */
  lemma LessIsStrictTotalOrder(a: Stem, b: Stem, c: Stem)
    ensures !Less(a, a)
    ensures Less(a, b) && Less(b, c) ==> Less(a, c)
    ensures a == b || Less(a, b) || Less(b, a)
    ensures !(Less(a, b) && Less(b, a))
  {
  }

  /** Among stems of one size the order is the order of species. */
  lemma LessSameSize(a: Stem, b: Stem)
    requires a.size == b.size
    ensures Less(a, b) <==> a.species < b.species
  {
  }
}
