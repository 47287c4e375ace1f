# Bouquet composer — a Dafny model

This project models the matching engine of `composer.cpp`, a streaming
bouquet composer. Designs (bouquet recipes such as `AS3a2b5`: name `A`,
size `S`, at most 3 stems of species `a`, at most 2 of `b`, 5 stems in all)
are registered first. Stems such as `aS` then arrive one at a time. Each
arriving stem is added to the supply, and the designs that name that stem
are tried in registration order. The first design the supply can fill
becomes a bouquet, and its stems leave the supply.

Modules, one per part of the source:

- `Stems` (`stems.dfy`): the `Stem` value and its validating constructor,
  equality and the defaulted ordering.
- `Designs` (`designs.dfy`): `StemCount` and `Design`. `MakeDesign` is the
  constructor after the regular expression has split the spec. It builds the
  `std::map<Stem, int>` of raw maxima with `emplace` semantics (a sorted
  association list), then clamps each maximum to `total - k + 1`.
- `DesignParser` (`design_parser.dfy`): the grammar
  `([A-Z])([SL])((?:\d+[a-z])+)(\d+)` as a hand-written splitter plus
  `stoi`, with a renderer that it inverts.
- `Selection` (`selection.dfy`): `_select_stems` as a pure function over the
  design's options, and `_take_arrangement_from_supply`. It also gives the
  supply's total, used for conservation.
- `Composers` (`composer.dfy`): the `Composer` state (supply map and
  stem-to-designs index) with `add_design`, `add_stem` and
  `bouquet_for_stem` as pure transitions. `Receive` and `Run` compose
  `add_stem` and `bouquet_for_stem` the way the read loop does.
- `Scenarios` (`scenarios.dfy`): worked examples.

Points of the source the model keeps:

- Stems are ordered by species first, then size: the defaulted
  `operator<=>` compares the declared members in order.
- A species named twice in a spec keeps its FIRST count, because
  `std::map::emplace` does not overwrite.
- A take is `min(available, bounded max, remaining - later options)`. The
  reserve of one stem per later option is part of the formula.
- `_select_stems` only reads the supply. The workspace is subtracted from
  the supply only after a successful selection.

A Dafny `string` stands for the `std::string` byte by byte: each `char` is
one byte of the text, so a character encoded in several bytes is several
`char`s.

Integers are mathematical. At composer.cpp:104 and composer.cpp:188 an `int`
is mixed with a `size_t`. The modular conversion back to `int` yields the
true value. Besides, on a constructed design the subtraction at
composer.cpp:188 never goes below 1 for any option the loop visits, whether
the selection later succeeds or fails: `Selection.SelectStepKeepsReserve`
shows that each visited option takes at least one stem and still leaves one
stem for every option to come, and `Selection.SelectSound` shows the same
reserve at every prefix of a successful selection.

## Model

| member | source | states |
|---|---|---|
| `Stems.ParseStem` | composer.cpp:32-45 | A stem is built iff the token has length 2, a species in `a`-`z` and a size `S` or `L`. Otherwise the error names the first failed check: length, then species, then size. A built stem is valid and prints back as the token. |
| `Stems.ParseToken` | composer.cpp:32-45 | Parsing the token of any valid stem gives that stem back. |
| `Stems.Less` | composer.cpp:47-48 | The defaulted order never relates a stem to itself and never puts a greater species first; any smaller species comes first. Its full order properties are `Stems.LessIsStrictTotalOrder` and `Stems.LessSameSize`. |
| `Stems.LessIsStrictTotalOrder` | composer.cpp:47-48 | The defaulted member-wise order is a strict total order whose equivalence is the defaulted equality. |
| `Stems.LessSameSize` | composer.cpp:48 | Among stems of one size, as in one design, the order is the order of species. |
| `Designs.Emplace` | composer.cpp:100 | Inserting into the sorted map keeps it sorted. A key already present keeps its old count. A new key gets the new count. The size grows by one exactly for a new key. |
| `Designs.RawStemCounts` | composer.cpp:96-101 | The raw map has one entry per distinct species of the spec, in the design's size, sorted by stem. Each entry holds the count of the species' first group. |
| `Designs.Bound` | composer.cpp:105-110 | Clamping succeeds iff every `min(count, anyMax)` is at least 1. On success each entry keeps its stem and holds that minimum, in the same order. Otherwise the error is the non-positive-count error. |
| `Designs.MakeDesign` | composer.cpp:91-110 | Construction succeeds iff `total >= k` (`k` distinct species) and every first count is at least 1. The design's code is name plus size, and its total is the total. It has exactly `k` entries; the entry for each species is `min(first count, total - k + 1)`. The result satisfies the design invariant. |
| `Designs.ValidDesignTotal` | composer.cpp:104-110 | Every constructed design has `total >= k >= 1`. |
| `DesignParser.ParseDesign` | composer.cpp:87-94 | A spec without a capital name and an `S`/`L` size is rejected as not matching. A spec that is accepted yields a valid design whose code is the spec's first two characters. |
| `DesignParser.ParseRenderGroups` | composer.cpp:134-135 | Splitting the text of any groups and total gives back exactly those groups and that total. |
| `DesignParser.ParseRenderSpec` | composer.cpp:87-110 | Parsing the text of well-formed parts is the same as constructing the design from those parts. |
| `Selection.Select` | composer.cpp:181-197 | A successful selection holds one entry per option, naming the options' stems in order, and its takes add up to the starting `remaining`. Its bounds, reserve and exact success condition are `Selection.SelectSound`, `Selection.SelectFailsOnEmpty`, `Selection.SelectExact` and `Selection.SelectComplete`. |
| `Selection.SelectStepKeepsReserve` | composer.cpp:184-191 | For every option the loop visits, successful or not: when `remaining` covers one stem per option left and the stem is on hand, `maximum_take` is at least 1, the take is at least 1, and what remains covers one stem per later option, which is the premise for the next option. |
| `Selection.SelectStems` | composer.cpp:181-197 | A successful selection for a design names the design's stems in the design's order and sums to the design's total. |
| `Selection.SelectSound` | composer.cpp:181-197 | A successful selection lists the design's stems in the design's order. Each take is at least 1, at most the supply and at most the bounded maximum. The takes sum to the total. After each prefix, `remaining` still covers one stem per option to come. |
| `Selection.SelectFailsOnEmpty` | composer.cpp:186-194 | If any option's stem has no supply, the selection fails. |
| `Selection.SelectExact` | composer.cpp:184-196 | With a non-negative supply, positive maxima and `remaining >= options`, selection succeeds iff every option's stem is on hand and the options' caps (`min(supply, max)`) together reach `remaining`. |
| `Selection.SelectComplete` | composer.cpp:181-197 | The greedy selection is complete: if any fitting arrangement sums to the total, the selection succeeds. |
| `Selection.Take` | composer.cpp:199-203 | After taking, each stem's supply is its old supply minus what the arrangement holds of it. Every other stem is unchanged. |
| `Selection.TakeNonNegative` | composer.cpp:199-203 | Taking a fitting arrangement of distinct stems leaves the supply non-negative. |
| `Selection.TotalSupplyTake` | composer.cpp:199-203 | Taking an arrangement lowers the total supply by exactly the arrangement's sum. |
| `Composers.Register` | composer.cpp:159-160 | Registration leaves the supply alone. Each bucket gains one copy of the design per option naming its stem, appended at the end. |
| `Composers.AddDesign` | composer.cpp:157-161 | The supply is untouched. Every bucket keeps its designs in their order and gains only copies of the new design at its end. `Composers.AddDesignBuckets` pins one copy per named stem. |
| `Composers.AddDesignBuckets` | composer.cpp:157-161 | A constructed design is appended exactly once to the bucket of each stem it names. No other bucket changes. |
| `Composers.AddDesignInv` | composer.cpp:157-161 | Adding a constructed design keeps the invariant: every indexed design is valid and names its bucket's stem. |
| `Composers.AddStem` | composer.cpp:163 | Adding a stem raises that stem's supply by one. All other supplies and the index are unchanged. |
| `Composers.AddStemTotal` | composer.cpp:163 | Adding a stem raises the total supply by exactly one. |
| `Composers.FirstFit` | composer.cpp:167-168 | The result is the first position in the bucket whose selection succeeds, with that selection's workspace. Every earlier design fails. There is no result iff every design in the bucket fails. |
| `Composers.BouquetForStem` | composer.cpp:165-174 | Only designs in the stem's bucket are tried, and the index never changes. No bouquet iff every design in the bucket fails, and then the composer is unchanged. A bouquet carries the code and workspace of the first design that succeeds, and the supply loses exactly that workspace. |
| `Composers.SelectedArrangement` | composer.cpp:168-170 | For a constructed design, a successful workspace fits the supply, sums to the design total and names exactly the design's stems. Taking it keeps the supply non-negative and lowers the total by the design total. |
| `Composers.BouquetForStemValid` | composer.cpp:165-174 | A bouquet fits a design indexed under the stem, sums to that design's total and includes the arriving stem. |
| `Composers.BouquetForStemInv` | composer.cpp:165-174 | Seeking a bouquet keeps the invariant, so the supply stays non-negative. |
| `Composers.BouquetForStemTotal` | composer.cpp:169 | Making a bouquet lowers the total supply by exactly the bouquet's size. |
| `Composers.Receive` | composer.cpp:219-222 | One stem of the read loop: the index never changes. A stem that completes nothing only adds itself to the supply. A bouquet carries the code of a design indexed under that stem and as many stems as that design's total. |
| `Composers.Run` | composer.cpp:219-224 | The read loop over a sequence of stems never changes the index and makes at most one bouquet per stem. Conservation is `Composers.RunConserves`. |
| `Composers.ReceiveNone` | composer.cpp:163-174 | A stem that completes no bouquet raises only its own supply, by one. No partial selection remains. |
| `Composers.RunConserves` | composer.cpp:163-203 | After any sequence of stems, the total supply is the old total plus the stems received minus the stems drawn into bouquets. The invariant holds throughout. |
| `Scenarios.MalformedStems` | composer.cpp:33-44 | `a`, `AS` and `aM` are rejected with the length, species and size errors; `aS` is accepted. |
| `Scenarios.MalformedDesign` | composer.cpp:89-90 | `as3b5`, `AS3a` and `AS5` do not match the grammar. |
| `Scenarios.ParseExample` | composer.cpp:87-110 | `AS3a2b5` yields the design `AS` with bounded maxima 3a, 2b and total 5. |
| `Scenarios.DuplicateSpeciesKeepsFirst` | composer.cpp:96-101 | Groups `3a` then `5a` yield a single entry holding 3. |
| `Scenarios.UnsatisfiableDesign` | composer.cpp:104-108 | Two species with total 1, or a first count of 0, are rejected with the non-positive-count error. |
| `Scenarios.FirstRegisteredWins` | composer.cpp:167-171 | With two designs that one `aS` completes, the bouquet comes from the one registered first. |
| `Scenarios.EndToEnd` | composer.cpp:157-203 | With `AS3a2b5` registered, stems `aS aS aS bS bS` yield exactly one bouquet, `AS` with 3a and 2b, on the fifth stem. Both supplies end at zero. |

## Left out

- `main` and `readline` (composer.cpp:206-218): line I/O and the design loop. The stem loop (composer.cpp:219-224) is `Composers.Run`, a pure function without the printing.
- The `operator<<` overloads: text output only. `Stems.Token` and `DesignParser.RenderSpec` are used only as inverses in round-trip lemmas.
- `std::hash<Stem>`: the supply and index are Dafny `map`s keyed by `Stem`.
- `std::regex` and `regex_iter_match`: replaced by the hand-written `DesignParser.ParseGroups`.
- DesignParser.ParseDesign: its own contract pins only the rejection of a bad name or size, the validity of the result and its code. Only parse-after-render is proved (`DesignParser.ParseRenderSpec`), not that every accepted text is in the grammar; leading zeros make rendering non-unique.
- `stoi` overflow (`std::out_of_range`) and overflow of `int` supply counts: numbers are unbounded.
- `Bouquet` holds a reference to the design's code; here the code is held by value.
- `workspace.reserve`: a capacity hint. The `workspace` member keeps stale content after a failed selection; nothing reads it, so the model returns the workspace only on success.
- `designs[stem]` and `supply[stem]` create empty or zero entries on lookup. A missing key reads as the empty bucket or zero supply, so these inserts are not modelled.
- The `Stem` errors inside `Design` (composer.cpp:100) cannot occur, because the grammar admits only `a`-`z` species and `S`/`L` sizes. `Designs.MakeDesign` requires these guarantees (`WellFormedParts`).
