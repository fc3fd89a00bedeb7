# MCP tool catalog integrity: a verified model

A Dafny model of the pure crate of the MCP Tool Catalog Integrity profile and of its interposer:
the RFC 8785 canonicalizer, the descriptor and catalog hashes, the pin store, the drift verifier,
and the assembly of paginated catalogs.

The product's claim is that two descriptors share a hash exactly when they say the same thing, and
that a verdict without drift therefore means that the observed catalog is the accepted one. The
model proves the first part from the number layout upwards, and says exactly when the second holds.

- **Numbers.** The printer's text of a double denotes exactly that double and is the only number
  token of the ECMAScript form that does. The parser's scan takes the longest token.
- **Strings and names.** Every string is read back from its printed text. Names are ordered by
  UTF-16 code units; where that order departs from scalar order is stated exactly.
- **Printer.** Writing succeeds for exactly the trees with finite numbers, distinct member names
  and at most 128 nested containers, and writes the plain text of the canonical tree.
- **Parser.** It accepts exactly the texts of the RFC 8259 grammar, without unpaired surrogate
  escapes and unacceptable number tokens, whose value is in that domain, and returns the value the
  grammar gives.
- **Both together.** Canonical text parses back to the canonical tree, whatever follows it. So
  canonical text is a unique name for meaning, canonicalizing is idempotent, and nothing but
  meaning influences it.
- **Canonical form.** What `canonicalize` returns is the one text that derives the same meaning and
  has the form of RFC 8785, which is stated as a property of texts.
- **Drift.** `verify` and `repin` are state changes over a map of pins. With a collision-free hash
  and no repeated tool names, a verdict without drift after a successful re-pin is given for the
  pinned catalog and no other; when names repeat, the exact condition is given.

## How it is built

| file | content |
|---|---|
| `Results.dfy`, `Sequences.dfy` | options, results, the error taxonomy; facts about sequences of anything |
| `Decimals.dfy`, `Numbers.dfy`, `Ecma.dfy`, `NumberReader.dfy` | decimal arithmetic, doubles and number tokens, the ECMAScript form, what the number scan accepts |
| `NumberMeaning.dfy` | what tokens denote in plain arithmetic, and which are accepted |
| `Utf16.dfy`, `Strings.dfy`, `Escapes.dfy` | code units and name order, string escapes in both directions |
| `Values.dfy`, `Printer.dfy` | value trees, canonical trees and meaning; the `write_*` methods |
| `Grammar.dfy`, `Reading.dfy`, `Parser.dfy` | derivation trees; the parser as functions on the text ahead; the parser class |
| `Completeness.dfy`, `Soundness.dfy`, `RoundTrip.dfy` | parser against grammar, parser against printer |
| `CanonicalTree.dfy`, `CanonicalForm.dfy` | canonical trees and canonical texts as properties, without the algorithms |
| `SerdePath.dfy` | the intake from map-based values |
| `StringSort.dfy`, `Hashing.dfy`, `PinStore.dfy`, `Verifier.dfy`, `Drift.dfy` | hashes, pins, `verify` and `repin`, and what they mean |
| `EndToEnd.dfy`, `Interposer.dfy` | from canonical text to verdict; policy and pages |

Where the source changes state (the parser's position and depth, the output buffer, the pins, the
page accumulator), the model has a class whose methods are proved equal to a function of the old
state; the properties are lemmas about those functions. Every lemma switches automatic induction
off, so that each proof is the one written down.

## What is assumed

- A double is given by its sign and the shortest digits and exponent of Rust's `{:e}` rendering.
  Decimal-to-double conversion is an abstract function `round` of the exact real number a token
  denotes. It is assumed to read zero as zero, and to read a double it returned back from that
  double's own shortest digits (`FloatModel.Valid`). Injectivity of canonical text does not even
  use that: it holds for all digit strings.
- Text is a sequence of Unicode scalar values; UTF-8 decoding and encoding are library calls.
- A hash identifier is an abstract function of the hashed text that yields no NUL. That it has no
  collisions is a precondition of the lemmas that need it, and of no others.
- Library sorts are modelled by an insertion sort with a contract. The sorted order of distinct
  names, and of strings, is proved unique, so any other correct sort gives the same result.

## Where the code and its documentation differ

- The comment at `canonical.rs:603-605` speaks of a nonzero digit in the significand; the code at
  line 669 looks at the whole token, exponent included. `0e5` is rejected. The model follows the
  code: `ZeroTokenAcceptedIff` says exactly which zero tokens are accepted.
- The grammar comment suggests that a number is read wherever one stands. A token followed by a
  point or exponent marker that leads nowhere (`1.x`, `1e,`) fails although `1` is a token:
  `ScanSucceedsIff` gives the exact condition, `DanglingMarkerRejected` those two inputs.
- `repin` writes pins before a later tool can fail. It is not all-or-nothing;
  `FailedRepinHarmlessIff` says when a failing call changes nothing, `FailedRepinLeavesPin` is a
  call that does change something.
- The comment on `catalog_hash` speaks of a NUL separator; the code puts a NUL behind every hash,
  the last one included, and so does the model.
- Nothing rejects two descriptors of one name, and then a verdict need not say whether the catalog
  is the pinned one. A catalog that repeats its tool is reported clean although it is another
  catalog (`RepeatedToolIsNotDrift`); a catalog with two different tools of one name is reported as
  drift although nothing changed (`RepeatedNameDrifts`). `CleanMeansPinned` gives the exact
  condition for all catalogs: the names agree, repetitions counted, and no pinned name has two
  hashes. The catalog hash needs no such condition (`CatalogHashMeansPinned`).

## Model

| member | source | states |
|---|---|---|
| Numbers.NumberTextDenotes | crates/mcp-tool-catalog-integrity/src/canonical.rs:266-313 | the printed text of every finite double is a number token and denotes exactly that double |
| Ecma.EcmaFormUnique | crates/mcp-tool-catalog-integrity/src/canonical.rs:259-313 | of all number tokens, the printed one is the only one with the double's sign and exact magnitude in the ECMAScript shape (positional from 10^-6 up to 10^21, else one digit before the point and a signed exponent, no superfluous digit) |
| Ecma.MagnitudeUnique | crates/mcp-tool-catalog-integrity/src/canonical.rs:278-286 | sign and magnitude determine the digits and exponent of a double |
| RoundTrip.NumberTextInjective | crates/mcp-tool-catalog-integrity/src/canonical.rs:266-313 | two finite doubles print alike iff they are equal or both zero |
| Printer.WriteNumber | crates/mcp-tool-catalog-integrity/src/canonical.rs:266-313 | appends the number's text and nothing else; fails, appending nothing, exactly for NaN and the infinities |
| Printer.WriteLayout | crates/mcp-tool-catalog-integrity/src/canonical.rs:287-311 | the four branches append the layout, no slice or repeat count being out of range |
| Numbers.ScanNumberComplete | crates/mcp-tool-catalog-integrity/src/canonical.rs:606-662 | a token followed by nothing that would continue it is scanned whole, the rest being left |
| Numbers.ScanNumberSound | crates/mcp-tool-catalog-integrity/src/canonical.rs:606-662 | whatever is scanned is a token of section 6 of RFC 8259 and could not have been continued |
| NumberReader.ScanIsLongest | crates/mcp-tool-catalog-integrity/src/canonical.rs:606-662 | no longer prefix of the text is a token |
| NumberReader.ScanSucceedsIff | crates/mcp-tool-catalog-integrity/src/canonical.rs:628-662 | the scan gives the longest token, except that it fails iff a point or exponent marker without digits follows that token |
| NumberReader.DanglingMarkerRejected | crates/mcp-tool-catalog-integrity/src/canonical.rs:628-662 | `1.x` and `1e,` are rejected under every float model, although `1` is scanned |
| NumberReader.ScanNeedsToken | crates/mcp-tool-catalog-integrity/src/canonical.rs:611-627 | where no prefix is a token, the scan fails |
| NumberReader.NumberRoundTrip | crates/mcp-tool-catalog-integrity/src/canonical.rs:606-675 | a printed double is read back whole and equal, -0 as 0, up to whatever follows |
| NumberReader.ZeroTokenAcceptedIff | crates/mcp-tool-catalog-integrity/src/canonical.rs:663-674 | a token of value zero is accepted iff its exponent is zero as well |
| NumberReader.ZeroWithExponentRejected | crates/mcp-tool-catalog-integrity/src/canonical.rs:669-673 | `0e5` is rejected under every float model |
| NumberMeanings.TokenDenotes | crates/mcp-tool-catalog-integrity/src/canonical.rs:606-664 | a token denotes its digits divided by ten per digit behind the point, then multiplied by ten as often as the exponent says, or divided if it is negative; a plus sign and the case of the marker mean nothing |
| NumberMeanings.NatOfPlaces | crates/mcp-tool-catalog-integrity/src/canonical.rs:664 | a digit behind others weighs one, those before it ten times as much, and `0` to `9` stand for their distance from `0` |
| NumberMeanings.AcceptedIff | crates/mcp-tool-catalog-integrity/src/canonical.rs:663-674 | a token is read as the double its value rounds to, unless that is not finite, or is zero although a digit of the token, exponent included, is not |
| NumberMeanings.UnderflowRejected | crates/mcp-tool-catalog-integrity/src/canonical.rs:669-673 | a token of nonzero value that rounds to zero is rejected |
| NumberMeanings.SameValueSameDouble | crates/mcp-tool-catalog-integrity/src/canonical.rs:606-675 | tokens of one sign and value are read as one double, and unless the value is zero one is accepted iff the other is |
| NumberMeanings.ExponentIsZeros | crates/mcp-tool-catalog-integrity/src/canonical.rs:606-675 | digits with an exponent, in either case and with or without a plus, are read exactly as the digits with that many zeros |
| NumberMeanings.ExponentForInstance | crates/mcp-tool-catalog-integrity/src/canonical.rs:606-675 | `1e5` is read as `100000`, as the double that number rounds to |
| NumberMeanings.ZeroText | crates/mcp-tool-catalog-integrity/src/canonical.rs:270-274 | both zeros are printed `0`, the only token of that value with one character |
| Utf16.CmpUtf16 | crates/mcp-tool-catalog-integrity/src/canonical.rs:339-353 | the loop over code units says which of two strings precedes the other: up to some position the code units agree, and there the first string ends while the second goes on, or has the smaller unit |
| Utf16.CompareScalarsTells | crates/mcp-tool-catalog-integrity/src/verifier.rs:65-68 | Rust's string order says which string precedes the other, by scalar values in the same way |
| Utf16.UnitsSpell | crates/mcp-tool-catalog-integrity/src/canonical.rs:340-341 | the code units of a scalar, in numbers |
| Utf16.NameOrderTotal | crates/mcp-tool-catalog-integrity/src/canonical.rs:339-353 | the comparison is a total order and is Equal only for equal strings |
| Utf16.OrdersDifferIff | crates/mcp-tool-catalog-integrity/src/canonical.rs:339-353 | it differs from scalar-value order iff at the first difference one scalar is supplementary and the other is from U+E000 to U+FFFF |
| Utf16.CombineInvertsUnits | crates/mcp-tool-catalog-integrity/src/canonical.rs:564-578 | combining two surrogates and splitting a scalar are inverse to each other |
| Strings.SurrogatePairRead | crates/mcp-tool-catalog-integrity/src/canonical.rs:562-585 | an escape pair is read as a scalar iff it spells that scalar's UTF-16 split |
| Strings.ReadStringComplete | crates/mcp-tool-catalog-integrity/src/canonical.rs:522-595 | every string of the grammar without unpaired surrogates is read for what it spells, whatever follows |
| Strings.ReadStringSound | crates/mcp-tool-catalog-integrity/src/canonical.rs:522-595 | whatever is read as a string is such a string of the grammar |
| Strings.StringRoundTrip | crates/mcp-tool-catalog-integrity/src/canonical.rs:317-336 | every string is read back from its printed text, stopping exactly behind it |
| Escapes.LetterEscapes | crates/mcp-tool-catalog-integrity/src/canonical.rs:529-545 | which letters may follow a reverse solidus, and the scalar each is read as |
| Escapes.HexDigits | crates/mcp-tool-catalog-integrity/src/canonical.rs:587-595 | the hexadecimal digits and their values, in either case |
| Escapes.CodeEscapes | crates/mcp-tool-catalog-integrity/src/canonical.rs:562-595 | four digits are read as the basic-plane scalar they number, the first digit weighing most; a low surrogate is rejected |
| Escapes.RawScalars | crates/mcp-tool-catalog-integrity/src/canonical.rs:546-554 | any other scalar is read as itself, control characters being rejected |
| Escapes.EscapesForInstance | crates/mcp-tool-catalog-integrity/src/canonical.rs:522-595 | the escapes for U+00E9 in either case and for the solidus are read |
| Escapes.ShortestSpelling | crates/mcp-tool-catalog-integrity/src/canonical.rs:315-336 | a scalar is printed in the shortest spelling a JSON string allows, and in the only one of that length with lowercase hexadecimal digits |
| Escapes.PrintedAsItselfIff | crates/mcp-tool-catalog-integrity/src/canonical.rs:315-336 | a string is printed as itself between quotes iff it has no quotation mark, reverse solidus or control character |
| Printer.WriteString | crates/mcp-tool-catalog-integrity/src/canonical.rs:317-336 | appends the quoted, minimally escaped string |
| Values.FitsIffNesting | crates/mcp-tool-catalog-integrity/src/canonical.rs:55-60 | the check made at each container holds throughout iff the nesting is at most 128 |
| Values.SameMeaningIffSameCanon | crates/mcp-tool-catalog-integrity/src/canonical.rs:230-232 | trees agree up to member order at every level and the sign of zero iff their canonical trees are equal |
| Values.SortedUnique | crates/mcp-tool-catalog-integrity/src/canonical.rs:231-232 | distinct names have one sorted order, so the choice of sort is immaterial |
| CanonicalTrees.CanonicalTreeIs | crates/mcp-tool-catalog-integrity/src/canonical.rs:230-232 | the canonical tree is the only tree that means the same, lists the members of every object in ascending order of their names' code units, and has no -0 |
| Printer.AdjacentScanFindsDuplicates | crates/mcp-tool-catalog-integrity/src/canonical.rs:233-243 | after the sort, comparing neighbours finds a repeated name iff there is one, however far apart |
| Printer.SortThenCanon | crates/mcp-tool-catalog-integrity/src/canonical.rs:230-252 | sorting before descending gives the tree that is sorted bottom-up |
| Printer.WriteValue | crates/mcp-tool-catalog-integrity/src/canonical.rs:206-257 | succeeds iff numbers are finite, names distinct and nesting within the bound, then appends the canonical tree's text; never takes output back |
| Printer.WriteItems | crates/mcp-tool-catalog-integrity/src/canonical.rs:213-225 | the same for the array branch |
| Printer.WriteMembers | crates/mcp-tool-catalog-integrity/src/canonical.rs:226-254 | the same for the object branch |
| Printer.CanonicalizeValue | crates/mcp-tool-catalog-integrity/src/canonical.rs:123-127 | canonical text for exactly the trees in the domain nested at most 128 deep |
| Parsing.Parser.Bump | crates/mcp-tool-catalog-integrity/src/canonical.rs:389-395 | returns the character at the position and moves by one, or stays at the end |
| Parsing.Parser.SkipWs | crates/mcp-tool-catalog-integrity/src/canonical.rs:397-406 | leaves ahead exactly the text without its leading whitespace |
| Grammar.WhitespaceIs | crates/mcp-tool-catalog-integrity/src/canonical.rs:397-406 | insignificant whitespace is space, tab, line feed and carriage return |
| Parsing.Parser.ParseValue | crates/mcp-tool-catalog-integrity/src/canonical.rs:415-438 | outcome and rest as the reading function says; depth restored on success and failure, never above 128; position never moves back or past the end; terminates |
| Parsing.Parser.ParseObject | crates/mcp-tool-catalog-integrity/src/canonical.rs:466-498 | the same for objects, the set of seen names being the names of the members read |
| Parsing.Parser.ParseArray | crates/mcp-tool-catalog-integrity/src/canonical.rs:500-520 | the same for arrays |
| Parsing.Parser.ParseString | crates/mcp-tool-catalog-integrity/src/canonical.rs:522-558 | the same for strings |
| Parsing.Parser.ParseUnicodeEscape | crates/mcp-tool-catalog-integrity/src/canonical.rs:562-585 | the same for what follows `\u` |
| Parsing.Parser.ParseHex4 | crates/mcp-tool-catalog-integrity/src/canonical.rs:587-595 | four hexadecimal digits and their value, or failure |
| Parsing.Parser.ParseNumber | crates/mcp-tool-catalog-integrity/src/canonical.rs:606-675 | the double of the scanned token, rejected on overflow or when zero with a digit 1-9 anywhere in the token |
| Parsing.Parse | crates/mcp-tool-catalog-integrity/src/canonical.rs:99-111 | the value of a text that is one value between blanks |
| Completeness.ReadValueComplete | crates/mcp-tool-catalog-integrity/src/canonical.rs:415-675 | for every derivation in the domain and every continuation, the parser returns the derivation's value and stops behind its text |
| Soundness.ReadValueSound | crates/mcp-tool-catalog-integrity/src/canonical.rs:415-675 | whatever the parser reads has a derivation with the returned value, in the domain and within the bound |
| Soundness.ParsedIffDerives | crates/mcp-tool-catalog-integrity/src/canonical.rs:99-111 | `parse` succeeds with v iff the text derives v in the RFC 8259 grammar restricted to escapes without unpaired surrogates and to number tokens that are accepted as doubles, v repeats no member name in an object and nests at most 128 containers |
| RoundTrip.CanonicalTextIsRead | crates/mcp-tool-catalog-integrity/src/canonical.rs:206-257 | canonical text followed by any delimiter is parsed to the canonical tree, the rest being left |
| RoundTrip.CanonicalTextParses | crates/mcp-tool-catalog-integrity/src/canonical.rs:99-127 | parsing the canonical text of any printable tree gives its canonical tree |
| RoundTrip.CanonicalTextNamesMeaning | crates/mcp-tool-catalog-integrity/src/canonical.rs:36-44 | printable trees have equal canonical text iff they are equal up to member order at every level and the sign of zero; no rounding assumption |
| RoundTrip.ParsedIsPrintable | crates/mcp-tool-catalog-integrity/src/canonical.rs:62-66 | every parsed tree is one the printer accepts |
| RoundTrip.CanonicalizeFailsOnlyInParse | crates/mcp-tool-catalog-integrity/src/canonical.rs:91-94 | `canonicalize` fails iff `parse` fails |
| RoundTrip.CanonicalizeIdempotent | crates/mcp-tool-catalog-integrity/src/canonical.rs:91-94 | canonicalizing canonical output returns it unchanged |
| RoundTrip.OnlyMeaningMatters | crates/mcp-tool-catalog-integrity/src/canonical.rs:91-94 | accepted texts canonicalize alike iff their values mean the same |
| RoundTrip.RespellingCanonicalizesAlike | crates/mcp-tool-catalog-integrity/src/canonical.rs:397-558 | any other spelling of an accepted text's meaning (blanks, escapes, member order) is accepted and canonicalizes alike |
| CanonicalForms.CanonicalTextIs | crates/mcp-tool-catalog-integrity/src/canonical.rs:206-336 | the printed text of a printable tree is the only text in the form of RFC 8785 (no blanks, ECMAScript numbers, minimal escapes, ascending names) that means the same |
| CanonicalForms.CanonicalizeIs | crates/mcp-tool-catalog-integrity/src/canonical.rs:91-94 | `canonicalize` returns exactly the text in that form of what its input derives in the grammar, if that repeats no member name and nests at most 128 containers; it fails otherwise, with the canonicalization error |
| SerdePath.FromSerdeValueAt | crates/mcp-tool-catalog-integrity/src/canonical.rs:155-191 | converts exactly the values with finite doubles nested within the bound, and to the same tree |
| SerdePath.CanonicalizeJsonValue | crates/mcp-tool-catalog-integrity/src/canonical.rs:139-142 | accepts and prints what the printer accepts and prints for the same tree |
| SerdePath.CanonicalizeText | crates/mcp-tool-catalog-integrity/src/canonical.rs:91-94 | the raw path is parsing followed by printing |
| SerdePath.PathsAgree | crates/mcp-tool-catalog-integrity/src/canonical.rs:55-59 | an accepted text keeps its canonical form when its tree goes through an ordered map and the value path |
| SerdePath.MapHidesRepeatedNames | crates/mcp-tool-catalog-integrity/src/canonical.rs:133-138 | a tree rejected only for repeated names is accepted after going through a map |
| SerdePath.MapKeepsLast | crates/mcp-tool-catalog-integrity/src/descriptor_hash.rs:36-41 | of several members with one name a map keeps the last one's value |
| SerdePath.RepeatedNameHidden | crates/mcp-tool-catalog-integrity/src/canonical.rs:133-138 | an object with the member `a` twice is rejected by the printer, and accepted after going through a map |
| Hashing.HashCatalog | crates/mcp-tool-catalog-integrity/src/descriptor_hash.rs:59-79 | hashes the sorted hashes, each followed by a NUL |
| Hashing.CatalogHashIs | crates/mcp-tool-catalog-integrity/src/descriptor_hash.rs:54-79 | the catalog hash is that of the descriptor hashes in ascending order, each followed by a NUL |
| Hashing.HashDescriptor | crates/mcp-tool-catalog-integrity/src/descriptor_hash.rs:48-51 | hashes what the value path canonicalizes |
| Hashing.DescriptorHashIs | crates/mcp-tool-catalog-integrity/src/descriptor_hash.rs:48-51 | a descriptor hash is that of the canonical text; without one the canonicalization error is returned |
| Hashing.JoinedInjective | crates/mcp-tool-catalog-integrity/src/descriptor_hash.rs:56-58 | the NUL-terminated join of NUL-free hashes can be taken apart in one way only |
| Hashing.CatalogHashIff | crates/mcp-tool-catalog-integrity/src/descriptor_hash.rs:54-79 | given a hash without collisions and descriptor hashes without NUL: catalog hashes are equal iff the descriptor hashes are equal as multisets |
| Hashing.DescriptorHashIff | crates/mcp-tool-catalog-integrity/src/descriptor_hash.rs:3-6 | given a hash without collisions: two descriptors that have a hash share it iff they mean the same |
| PinStores.InMemoryPinStore.Set | crates/mcp-tool-catalog-integrity/src/pin_store.rs:60-63 | overrides one pin and leaves the catalog hash alone |
| PinStores.InMemoryPinStore.Remove | crates/mcp-tool-catalog-integrity/src/pin_store.rs:65-67 | drops one pin |
| PinStores.InMemoryPinStore.PinnedNames | crates/mcp-tool-catalog-integrity/src/pin_store.rs:69-71 | every pinned name exactly once, in no particular order |
| Verifier.Verify | crates/mcp-tool-catalog-integrity/src/verifier.rs:41-72 | the report determined by the pins and the observed name-hash pairs, or the first tool's error; pins untouched |
| Verifier.IdentifyIs | crates/mcp-tool-catalog-integrity/src/verifier.rs:46-48 | a tool is identified by the string under `name` and the hash of its canonical text; without such a string its name is missing, whether or not it has a canonical text |
| Verifier.ObserveEndsAt | crates/mcp-tool-catalog-integrity/src/verifier.rs:46-48 | the first tool that cannot be identified ends the observation with its error, the earlier ones being seen |
| Verifier.Repin | crates/mcp-tool-catalog-integrity/src/verifier.rs:77-97 | the new pins and catalog hash as a function of the old ones, for success and for failure at any tool |
| Drift.ReportPartitions | crates/mcp-tool-catalog-integrity/src/verifier.rs:46-68 | every descriptor is reported once as added, mutated or unchanged; removed is exactly the pinned names not observed; all lists ascending by scalar values |
| Drift.ReportTells | crates/mcp-tool-catalog-integrity/src/verifier.rs:46-63 | how often a name is in each list: added as often as it is observed without a pin, unchanged and mutated as often as with a pin and the pinned or another hash, removed once if pinned and not observed |
| Drift.NoDriftIffPinsMatch | crates/mcp-tool-catalog-integrity/src/verifier.rs:33-35 | no drift iff the pins and the observed name-hash pairs are the same relation |
| Drift.RepinReplaces | crates/mcp-tool-catalog-integrity/src/verifier.rs:77-97 | after success the store holds the last hash of every name in the catalog, the catalog's hash, and nothing of before |
| Drift.LastWinsIsLast | crates/mcp-tool-catalog-integrity/src/verifier.rs:81-87 | of several descriptors with one name the last one's hash is pinned |
| Drift.FailedRepinOverrides | crates/mcp-tool-catalog-integrity/src/verifier.rs:81-87 | a failing call leaves the old pins overridden by the tools before the failing one, no pin removed, catalog hash unchanged |
| Drift.FailedRepinHarmlessIff | crates/mcp-tool-catalog-integrity/src/verifier.rs:81-87 | a failing call changes nothing iff those tools were pinned that way already |
| Drift.FailedRepinLeavesPin | crates/mcp-tool-catalog-integrity/src/verifier.rs:81-87 | pinning a tool named `a` and then null into an empty store fails for the missing name and leaves `a` pinned |
| Drift.RepinErasesHistory | crates/mcp-tool-catalog-integrity/src/verifier.rs:74-97 | after any run of successful and failing re-pins, a successful one leaves what it leaves from any other start |
| Drift.FailuresLoseNothing | crates/mcp-tool-catalog-integrity/src/verifier.rs:77-87 | a run of failing re-pins loses no pin and keeps the catalog hash |
| Drift.VerifyAfterRepin | crates/mcp-tool-catalog-integrity/src/verifier.rs:41-97 | verifying the catalog just pinned is clean iff its same-named tools have equal hashes |
| EndToEnd.SameToolSameName | crates/mcp-tool-catalog-integrity/src/manifest.rs:29-31 | descriptors that mean the same have the same name, or both have none |
| EndToEnd.CleanMeansPinned | crates/mcp-tool-catalog-integrity/src/verifier.rs:41-97 | no collisions, all catalogs: after accepting a catalog, if another has the same names equally often and no pinned name has two hashes, it verifies without drift iff it is that catalog up to tool order, member order and the sign of zero; otherwise it is never both; with distinct names there is no condition |
| EndToEnd.CleanIffCovers | crates/mcp-tool-catalog-integrity/src/verifier.rs:41-97 | for all catalogs: clean iff every observed tool means the same as the last pinned one of its name and every pinned name is observed |
| EndToEnd.CatalogHashMeansPinned | crates/mcp-tool-catalog-integrity/src/descriptor_hash.rs:54-79 | no collisions, all catalogs: the observed catalog hash is the stored one iff the observed catalog is the accepted one up to tool order, member order and the sign of zero |
| EndToEnd.CleanCatalogHash | crates/mcp-tool-catalog-integrity/src/verifier.rs:59-95 | for a clean report, without any hash property: it carries the stored catalog hash if the names agree equally often and no pinned name has two hashes, or if names are distinct; without collisions it carries it only under the first of these |
| EndToEnd.RepeatedToolIsNotDrift | crates/mcp-tool-catalog-integrity/src/verifier.rs:46-57 | one pinned tool observed twice is clean, although the catalog and its hash differ |
| EndToEnd.RepeatedNameDrifts | crates/mcp-tool-catalog-integrity/src/verifier.rs:41-97 | a catalog with two different tools named `a` is accepted, and verifying that same catalog reports drift |
| Interposing.PagesAreResults | crates/mcp-tool-catalog-integrity-interposer/src/lib.rs:232-238 | pages and whole results accept the same values and find the same descriptors |
| Interposing.PageToolsIff | crates/mcp-tool-catalog-integrity-interposer/src/lib.rs:232-238 | descriptors are found in an array, or in an object with an array under `tools`, and nowhere else |
| Interposing.NextCursorIff | crates/mcp-tool-catalog-integrity-interposer/src/lib.rs:239-243 | the cursor of a page is the string under `nextCursor` |
| Interposing.ObservedIs | crates/mcp-tool-catalog-integrity-interposer/src/lib.rs:110-115 | a result is judged by the descriptors found in it, and is malformed if there are none to find |
| Interposing.OutcomeIs | crates/mcp-tool-catalog-integrity-interposer/src/lib.rs:165-173 | for every policy: clean iff there is no drift; drift is returned as such under Report and is the error under FailClosed, with the verified report; a failing tool is an error |
| Interposing.Interposer.Observe | crates/mcp-tool-catalog-integrity-interposer/src/lib.rs:110-115 | the verdict on the catalog in the result, or the malformed-catalog error |
| Interposing.Interposer.RepinComplete | crates/mcp-tool-catalog-integrity-interposer/src/lib.rs:150-153 | re-pins the given catalog in the interposer's own store |
| Interposing.CatalogAccumulator.ObservePage | crates/mcp-tool-catalog-integrity-interposer/src/lib.rs:232-244 | appends a well-formed page's descriptors and returns its cursor; leaves the state alone for any other page |
| Interposing.CatalogAccumulator.Catalog | crates/mcp-tool-catalog-integrity-interposer/src/lib.rs:246-251 | the catalog of all descriptors accumulated so far |
| Interposing.CatalogAccumulator.Finish | crates/mcp-tool-catalog-integrity-interposer/src/lib.rs:255-259 | the verdict on all descriptors accumulated |
| Interposing.AccumulatesAll | crates/mcp-tool-catalog-integrity-interposer/src/lib.rs:232-253 | after any run of pages the accumulator holds the descriptors of all well-formed ones, in page order |
| Interposing.PaginationTransparent | crates/mcp-tool-catalog-integrity-interposer/src/lib.rs:187-206 | any run of pages ends as one page with all their descriptors would |
| Interposing.LetThroughIffPinned | crates/mcp-tool-catalog-integrity-interposer/src/lib.rs:165-260 | fail-closed after a re-pin, no collisions, all catalogs and pages: if the names agree equally often and no pinned name has two hashes, a run of pages is let through iff its descriptors together are the pinned catalog; otherwise it is never both; with distinct names there is no condition |
| Interposing.VerdictIgnoresPagesAndOrder | crates/mcp-tool-catalog-integrity-interposer/src/lib.rs:206-260 | the outcome depends neither on the split into pages nor on the order of tools, except for which error is reported when descriptors cannot be identified |
| Interposing.FailClosedLetsOnlyCleanThrough | crates/mcp-tool-catalog-integrity-interposer/src/lib.rs:165-173 | under FailClosed a result is let through iff there is no drift, and then as clean |

## Left out

- SHA-256 and base64url: an abstract identifier function stands for both.
- Rounding inside decimal-to-double conversion and the generation of shortest digits: only the read-back assumption stated above is used.
- UTF-8 decoding and encoding at the edge: the model starts and ends with scalar sequences.
- `serde_json` parsing, its own recursion limit and its float rounding: the value path starts from a map-based value.
- The `*_bytes` entry points of the interposer: they add `parse`, which is modelled, and `serde_json::from_slice`, which is not.
- `FilePinStore`: opening, flushing and renaming files is not part of this model; its in-memory half is the pin map.
- The accessors `pins_mut` and `into_pins`: unrestricted handles for the host.
- Error message texts.
- The proposed signed attestation of ADR-MTCI-002: there is no code for it.
- 32-bit width of the exponent and digit count: the exponent of a double and the length of its digits are far inside that range.
- The position of the parser after a failure is bounded but not given exactly; `parse` drops the parser then.
