# Verified model of the Pinner operation core

This project models the operation registry of `go.lumeweb.com/pinner` and the
pieces of `catalogops`, `catalogmcp` and `dnsutil` whose correctness rests on more
than one body, and proves what they promise. `dafny verify dfyconfig.toml` checks
all of it.

The registry takes untyped input maps from any frontend and turns them into one
typed map per operation; `Invoke` decides who may run what. Around it sit paging,
the single-record DNS delete, positional arguments, the adapter-gap diagnostic of the
MCP compiler, the vault cache rebuild, MX content and platform root matching.

## How the source is represented

* A Go `any` is a `Value`, one constructor per dynamic type the code distinguishes,
  `Other` for the rest; pointers are compared by what they point to, `Int64Ptr` is a
  non-nil `*int64`, and a nil slice is the empty one. Every native integer carries its kind, and every
  conversion to `int` is written out as a two's-complement wrap for a 32- or 64-bit `int`.
* A float is a mathematical real, an infinity or NaN. Rounding an integer to a
  float, parsing floats and durations, and converting an out-of-range float to an
  integer are fields of `Env`: parameters about which nothing is assumed.
* The order in which Go visits a map is a parameter `order` wherever the code ranges
  over one. `Enumerates(order, keys)` says that it visits each key once.
* A handler is a number; executing it is the outcome `Executed(handler, input)`.
* Backends, the disk and the indexer are objects or functions whose failures are
  parameters, one for each call that can fail. `Disk.history` is a ghost record of every state.
* The building blocks are pinned in literal terms, in figures and by constructor, so that the
  laws above them cannot drift with a definition: letters and blanks (`LetterCase`,
  `SpacesExact`), integer ranges (`IntRanges`, `KindRanges`), and the lemmas named `...Exactly`.
* Loops are methods proved against specifications; what is then proved about whole
  runs, round trips and refinements is stated over those specifications.

Modules: `Ascii`, `Decimals`, `Basics` (text, strconv, enumerations); `Args`,
`ArgResolution`, `ArgLaws` (one argument); `Normalizer`, `NormalizerLaws`, `CollisionLaws`, `Accessors`
(whole inputs); `Operations`, `CatalogRegistry`, `CatalogLaws` (registry, discovery, runs);
`Paging`, `PageScan`, `DnsRecords`; `Positional`; `CompilerGap`, `CompilerInterleaving`;
`CacheRebuild`; `MxContent`; `PlatformRoots`.

## Where the code does not do what it says

* `unknownOperationArg` returns `""` for "every key is known" (catalog.go:492-509), so an
  input key `""` is never reported. An input whose only undeclared key is `""` is
  accepted, and with another undeclared key beside it acceptance depends on the order of
  the map. `AcceptedAlways` and `AcceptedSometimes` give the exact conditions,
  `EmptyKeySlipsThrough` the smallest inputs, and `NormalizeIdempotent` says exactly when
  idempotence survives.
* Registration does not check that names and camelCase aliases of different args stay
  apart, nor that a name is declared once. Where args meet, one arg's turn takes, changes or
  deletes what another was given. `OutputTurnByTurn` says for any arg list what the loop then
  leaves under each key. The four statements that follow are for lists in which a repeated
  name, if there is one, is declared with the same type, default and choices each time
  (`OneVoice`, `RepeatsAgree`; distinct names always, `DistinctNamesAgree`); such declarations
  act as one.
  * A value given for an arg without hyphen reaches the handler exactly under the condition of
    `PlainValueSurvives` (no later alias removes it; no earlier alias took it, unless the value
    is what the arg has without any).
  * One for a hyphenated arg does exactly under that of `HyphenatedValueSurvives`.
  * On an accepted input every declaration order gives one map exactly when
    `CollisionsHarmless` holds (`DeclarationOrderExactly`).
  * Then all of `NormalizeMeaning` holds as well (`HarmlessMeaning`).

  A name repeated under two types can be accepted in one order and rejected in the other
  without any collision: `RepeatedNameDisagrees`. `AliasCollision` shows a value lost with and
  without its key; `DeclaredArgReachesHandler` is about the key alone. The other laws of
  normalization assume `WellFormed` args, those with distinct names and no collision
  (`ApartExactly`).
* For the same reasons the handler of a confirmed destructive call by a model need not see
  `confirm`. For every arg list it sees it true exactly when `ConfirmKept` holds: no arg has
  `confirm` for an alias, or the first bool declaration of it behind the last such arg defaults
  to true; and no nullable bool of that name comes behind and makes a pointer of it
  (`ConfirmReachesHandler`, and so `ExecutedExactly` and `RunSafety`). Well-formed args keep it
  (`ApartArgsKeepConfirm`); `ConfirmErasedByAlias` shows a list that deletes it and one that
  resets it, `ConfirmRetyped` one under which it reads as false.
* `ArgTypeInt` is meant for any native integer type (catalog.go:690-691) but refuses uint8,
  uint16 and uint32: `IntNeverWraps` says exactly which it accepts. A json.Number it reads by its
  form, not by the integer it denotes: exactly the plain decimals that fit (`JsonIntExact`), so
  `1e3` and `5.0` are refused as JSON numbers and accepted as floats (`JsonFormsDiverge`).
  Frontends converge on the plain form.
* `ArgTypeNullableInt` converts int64 and `*int64` without the guard `ArgTypeInt` has
  (catalog.go:761-768). `NullableIntExactWhenItFits` says exactly when the value survives,
  `NullableIntWrapsOn32Bits` shows five billion becoming 705032704.
* Overlapping `Compile` calls of catalogmcp can attribute a gap to the wrong compiler
  or lose it, as the comment at catalogmcp/compile.go:40-48 half concedes:
  `OverlapMisattributes`, `OverlapLoses`. In any interleaving `activeCompiler` is a compiler
  exactly when its last write installed it (`PointerExact`), so a report reaches its own
  compiler exactly when that write was that compiler's, another one when it was another's, and
  none after a Finish (`LoadLandsOn`); `AttributionExact` says whose gap each compiler holds.

## Model

| member | source | states |
|---|---|---|
| Ascii.CamelCaseLoop | catalog.go:1028-1047 | The byte loop yields the hyphen-separated segments glued together, every later one capitalized |
| Ascii.CamelCaseFixpoint | catalog.go:1025-1047 | A name is its own alias exactly when it has no hyphen; converting an alias again changes nothing |
| Ascii.ContainsExact | catalog.go:247-254 | The substring test of the query filter holds exactly when the text occurs at some position |
| Ascii.EqualFoldExact | catalog.go:214-218 | Folding compares place by place, capitals and small letters 32 code points apart |
| Ascii.TrimSpaceExact | catalog.go:207-209 | Trimming takes only blanks, from both ends, and all of them |
| Ascii.BeforeExact | catalog.go:226-229 | The sort order is the dictionary order by character |
| Ascii.FieldsExact | dnsutil/dnsutil.go:206-226 | The field split, case by case: blanks in front do not count, a word ends at the first blank |
| Decimals.ParseIntExact | catalog.go:170-198 | A text is read as an integer iff it is digits with an optional sign and in range, and as the integer it denotes |
| Decimals.PrintedExactly | catalog.go:625-672 | An integer prints with a minus iff negative, without leading zero, and as the digits that denote it |
| ArgResolution.FinalValueHasShape | catalog.go:893-923 | Whatever is supplied, the value handed on has the Go type the arg declares |
| ArgResolution.FilledIsStable | catalog.go:569-867 | A coerced value is accepted again and comes back unchanged |
| ArgResolution.DefaultIsStable | catalog.go:170-198 | A registrable default, fed back as input, is accepted and yields the same value |
| ArgResolution.FinalValueIsStable | catalog.go:569-867 | One arg is idempotent in every state: filled, defaulted, nullable nil and zero shape |
| ArgLaws.FloatToIntExact | catalog.go:723-739 | An int arg accepts a float iff it is a mathematical integer of the platform's int range, and hands on exactly that integer |
| ArgLaws.IntNeverWraps | catalog.go:688-752 | For either width an accepted int is the integer denoted by the raw value, and a native integer is accepted iff it fits and is not of type uint8, uint16 or uint32 |
| ArgLaws.JsonIntExact | catalog.go:721-727 | An int arg takes a JSON number iff it is written as digits with an optional sign and the integer fits, and hands on that integer |
| ArgLaws.JsonFormsDiverge | catalog.go:721-739 | 1e3 and 5.0 are refused as JSON numbers and accepted as the floats they decode to |
| ArgLaws.NullableIntExactWhenItFits | catalog.go:753-801 | A nullable int carries the denoted integer iff it fits the platform int; on 64 bits always |
| ArgLaws.NullableIntAgreesWithInt | catalog.go:688-801 | Where both integer types accept a value they agree on it |
| ArgLaws.NullableIntWrapsOn32Bits | catalog.go:761-768 | A concrete int64 that a 32-bit nullable int accepts and wraps while the plain int arg refuses it |
| ArgLaws.PrintedDefaultsRead | catalog.go:1191-1230 | A declared default means what it was written from: a decimal its integer, a comma-joined list its segments |
| ArgLaws.ConvergingValuesAgree | catalog.go:569-867 | Two spellings of one value (absent/null/empty, []string/[]any, native int/integral float/plain-decimal json.Number) are accepted alike and end as the same value |
| ArgLaws.FilledExactly | catalog.go:569-867 | For every type and raw value: accepted as which value, iff the raw value is one of the listed shapes |
| ArgLaws.FilledNullableIntExactly | catalog.go:753-801 | A nullable int takes pointers, int, int32 and int64 as they come and an uint64, integral float or plain JSON number iff it fits |
| ArgLaws.BlankExactly | catalog.go:569-586 | Not given means absent, null, or the empty text or list, and nothing else |
| ArgLaws.CoerceAnySlice | catalog.go:874-891 | The element loop succeeds iff all elements are strings and then returns exactly them, in order |
| Normalizer.FirstMissingRequiredArg | catalog.go:994-1007 | The first mandatory arg that is absent, null or empty; none iff every mandatory arg is filled or malformed |
| Normalizer.UnknownOperationArg | catalog.go:492-509 | The first visited key that is neither declared, nor an alias, nor reserved; a non-empty answer is always such a key |
| Normalizer.IsDeclaredArgKey | catalog.go:474-484 | Whether a key is some arg's name or alias |
| Normalizer.NormalizeInputDefaults | catalog.go:1056-1103 | The loop that rewrites the map it reads, then the selection gate, equal the fold over the args |
| Normalizer.CollectGroups | catalog.go:1120-1131 | The non-empty groups in order of first appearance, each with its members in declaration order |
| Normalizer.EnforceSelectionGroups | catalog.go:1119-1144 | Reports the first group, by appearance, with more than one selected member |
| Normalizer.NormalizeOperationInput | catalog.go:432-467 | The whole pipeline with each of its errors in the order of the code |
| NormalizerLaws.LookupUnchanged | catalog.go:1061-1073 | Non-interference: in its turn each arg reads the original input although earlier turns rewrote the map |
| NormalizerLaws.FillMeaning | catalog.go:1061-1098 | The loop succeeds iff no arg is malformed in the original input, and then every arg is final, every alias gone and all else untouched |
| NormalizerLaws.SelectionGateExact | catalog.go:1119-1144 | The gate passes iff no two args of one non-empty group are both selected |
| NormalizerLaws.SelectedMeansNonZero | catalog.go:1146-1186 | A typed value is a selection iff it is not its type's zero; nullable bool only when true, nullable int also when 0 |
| NormalizerLaws.OmittedSelectsNothing | catalog.go:1152-1186 | An omitted, null or empty arg is a selection only through its declared default |
| NormalizerLaws.RawSelection | catalog.go:1168-1186 | A raw JSON value is a selection unless null, empty text or a zero |
| NormalizerLaws.FirstMissingExact | catalog.go:994-1007 | No mandatory arg is reported iff none is missing, and a reported one is |
| NormalizerLaws.NormalizedUnique | catalog.go:1056-1103 | The declarative description of the output determines it |
| NormalizerLaws.NormalizeMeaning | catalog.go:432-467 | Accepted iff every mandatory arg is filled, nothing is malformed, no group is ambiguous and the key check found nothing; the output is the described map |
| NormalizerLaws.MissingExactly | catalog.go:994-1007 | An arg is reported missing iff some required arg without default is absent, null or empty; the one reported is such |
| NormalizerLaws.ErrorsAreTrue | catalog.go:432-509 | Each error names what is wrong: a missing mandatory arg, a key that means nothing, a malformed value, a group with two selections |
| NormalizerLaws.StrayExactly | catalog.go:492-509 | A stray key is one that no arg has for name or alias and that is not reserved |
| NormalizerLaws.ReservedKeys | catalog.go:446-467 | The auth token passes through, the request state is stripped, unless declared as an arg |
| NormalizerLaws.AcceptedAlways | catalog.go:432-509 | Accepted under every map order iff acceptable and no undeclared key other than the empty one |
| NormalizerLaws.AcceptedSometimes | catalog.go:432-509 | Accepted under some map order iff acceptable and either no undeclared key or the empty key among them |
| NormalizerLaws.EmptyKeySlipsThrough | catalog.go:436-509 | The smallest inputs on which the empty key is let through, and on which the map order decides |
| NormalizerLaws.OutputClosedAndTyped | catalog.go:446-466 | Output keys are the declared names and what passes through; no undeclared alias survives; every value has its shape; a filled value is kept, anything else becomes the default or the zero |
| NormalizerLaws.DeclarationOrderIrrelevant | catalog.go:432-467 | Reordering the declared args changes neither acceptance nor result |
| NormalizerLaws.FrontendsConverge | catalog.go:1049-1056 | Inputs that differ only in the spelling of keys and values give equal maps, and are accepted alike unless the empty key is one of several undeclared ones |
| NormalizerLaws.KeySpellingIrrelevant | catalog.go:1009-1023 | Using the alias instead of the name, or both with the name winning, is the same request |
| NormalizerLaws.NormalizeIdempotent | catalog.go:432-467 | Normalizing an accepted output gives it back for every map order iff the input had no undeclared key but the empty one; whenever it is accepted at all it is unchanged |
| CollisionLaws.DeclaredArgReachesHandler | catalog.go:1061-1098 | For every arg list, well-formed or not, and every accepted input: a declared arg is in the output iff no arg after its last declaration has its name for an alias |
| CollisionLaws.TurnByTurn | catalog.go:1061-1098 | For every arg list the loop fails iff some turn reads a malformed value, and leaves under each key what the turns up to then say, without a map being rewritten |
| CollisionLaws.OutputTurnByTurn | catalog.go:432-467 | The output of every accepted input, key by key, for every arg list |
| CollisionLaws.LastTouchDecides | catalog.go:1061-1098 | The last arg with the key for name or alias decides what is under it: its value, or nothing |
| CollisionLaws.PlainRead | catalog.go:1009-1023 | An arg without hyphen reads the input unless an earlier alias has removed its key, or what an agreeing earlier declaration of it made of that; its turn comes to the same |
| CollisionLaws.HyphenatedRead | catalog.go:1009-1023 | The first declaration of a hyphenated arg reads its own key, which nothing removes, else what the args before it left under its alias (agreeing declarations of that name) |
| CollisionLaws.PlainValueSurvives | catalog.go:1061-1098 | Where declarations of its name agree, the handler gets what was given for an arg without hyphen iff no alias follows its last declaration, and none precedes it or the value is the one it has without any |
| CollisionLaws.HyphenatedValueSurvives | catalog.go:1061-1098 | Where declarations of its name and of its alias agree, a hyphenated arg is always in the output, with what was given for it iff its own key was, or what is left under its alias comes to the same |
| CollisionLaws.HarmlessMeaning | catalog.go:432-467 | Acceptance and output are as for well-formed args whenever repeated names agree and the collisions are harmless on the input |
| CollisionLaws.ApartExactly | catalog.go:1025-1047 | Args are apart iff their names differ and no two have the same alias |
| CollisionLaws.DeclarationOrderExactly | catalog.go:1061-1098 | Where repeated names agree, on an accepted input every order of the args gives the same map iff args of one alias are all hyphenated and each has its own key given or comes to the same with and without the alias |
| CollisionLaws.RepeatTakesOver | catalog.go:1061-1098 | A further declaration of a name that agrees accepts what an earlier one made of a value and leaves it as it is |
| CollisionLaws.HyphenatedRepeat | catalog.go:1061-1098 | Further agreeing declarations of a hyphenated name repeat the first one's value |
| CollisionLaws.RepeatedNameDisagrees | catalog.go:128-168 | Registrable args of one name and two types: one order changes the value, the other rejects the input |
| CollisionLaws.AliasCollision | catalog.go:128-168 | Registrable args with colliding alias: a given value is lost with its key, or replaced by the zero in the other order |
| Accessors.FlexibleIDRoundTrip | catalogops/workspaces.go:118-130 | An integer given as a flexible id is printed by the normalizer and parsed back to the same integer iff it fits int, else reported as not numeric |
| Accessors.IDsExactly | catalogops/workspaces.go:108-130 | A missing id is reported as such; the numeric form is read iff it is a plain decimal that fits int |
| Accessors.RequiredIDIsPresent | catalogops/workspaces.go:108-116 | After normalization a required flexible id is present and is the supplied one |
| Accessors.HandedOnExactly | catalog.go:432-467 | For every accepted input each arg is what was given, read in the declared type; for a blank one the registered default, and without it the zero of the type, a nil pointer for nullable ones |
| Accessors.RefusedExactly | catalog.go:569-867 | A value is refused iff it is not blank and is none of the shapes its type takes |
| Accessors.ReadersSeeNormalizedValue | accessors.go:19-87 | On a normalized map every typed reader returns the value stored, whatever its default; the text readers return their default for the empty text and only for it |
| Accessors.ReadersExactly | accessors.go:19-87 | What each reader returns on any map, shape by shape |
| CatalogRegistry.Catalog.Add | catalog.go:109-126 | Adds iff the operation is non-nil, named, valid and its name is free; otherwise nothing changes |
| CatalogRegistry.Catalog.ValidateOperation | catalog.go:133-198 | Passes iff every arg is registrable; a reported arg is not |
| CatalogLaws.RegistrableExactly | catalog.go:128-198 | The registration rules of an arg, one by one |
| CatalogLaws.AddExactly | catalog.go:109-126 | An accepted operation is registered under its name beside all others; a refused one changes nothing |
| CatalogRegistry.Catalog.Search | catalog.go:207-230 | Exactly the operations passing all three filters, strictly increasing by name, for every map order |
| CatalogRegistry.Catalog.DescribeFor | catalog.go:256-273 | The descriptor of a visible operation, nothing for an unknown or hidden one |
| CatalogRegistry.Catalog.Invoke | catalog.go:350-402 | The gates in order, then the handler on the normalized input; the registry is not changed |
| CatalogRegistry.Catalog.DestructiveConfirmSatisfied | catalog.go:414-424 | The loop finds the agent-confirmation arg and reads the raw confirm |
| CatalogRegistry.Compile | compile_mcp.go:67-89 | A nil catalog is an error; otherwise one descriptor per operation of the surface's search, in its order |
| CatalogLaws.SearchUnique | catalog.go:226-229 | The search result does not depend on the order in which the map is visited |
| CatalogLaws.FoundExactly | catalog.go:207-254 | An operation is found iff registered, on the surface searched, of the category up to case, and holding the query in its name, title, summary or description |
| CatalogLaws.DescriptorFields | catalog.go:288-320 | Each field of a descriptor is the operation's own; the description is resolved for a model only |
| CatalogLaws.CompiledFields | compile_mcp.go:67-89 | The same for the compiled tools, with the compiler's profile on the model's surface |
| CatalogLaws.SurfacesAgree | catalog.go:256-286 | Describe, Search, the compiled descriptors (no profile) and the visibility refusal of Invoke draw one boundary, with equal descriptors: model or both for a model, app-only or both for an app or human |
| CatalogLaws.FirstOfferWins | catalog.go:334-348 | The description is the first non-empty offer of a fallback target, and the operation's own text iff there is none |
| CatalogLaws.NeverReplaced | catalog.go:119-125 | In every run a registered operation stays registered and unchanged |
| CatalogLaws.AddedStaysRegistered | catalog.go:109-126 | In every run an accepted add puts its operation under its name in every later state; any other step changes nothing |
| CatalogLaws.RegisteredWasAdded | catalog.go:109-126 | Whatever is registered was put there by an earlier validated add, the only accepted one of that name |
| CatalogLaws.ConfirmSatisfiedExact | catalog.go:404-424 | Self-confirmation holds iff an AgentConfirm bool confirm is declared and the raw confirm is true |
| CatalogLaws.InvokeExactly | catalog.go:350-402 | Every answer of Invoke in the order of the gates: unknown, not agent-safe for anybody but a human, off the actor's surface, unconfirmed, without handler, bad input, executed |
| CatalogLaws.ExecutedExactly | catalog.go:350-402 | A call executes iff the whole policy holds for the operation it names and the input normalizes |
| CatalogLaws.SentinelsExactly | catalog.go:362-387 | When exactly the human-required and the confirmation-required refusals are returned |
| CatalogLaws.RunSafety | catalog.go:109-402 | Over every run: an executed handler belongs to an operation added before and never replaced, visible to the actor, human-gated, and for a destructive call by a model self-confirmed; its handler then sees confirm true iff the declared args keep it |
| CatalogLaws.ConfirmReachesHandler | catalog.go:404-424 | For every arg list, a confirm that passed the gate reaches the handler iff no arg has it for an alias, or the first bool confirm behind the last that does defaults to true, and no nullable bool of that name follows |
| CatalogLaws.ApartArgsKeepConfirm | catalog.go:147-153 | Args apart from one another always keep a given confirm |
| CatalogLaws.ConfirmErasedByAlias | catalog.go:147-153 | Registrable colliding args under which the confirm of an executed destructive call is gone, or false in the other order, before the handler |
| CatalogLaws.ConfirmRetyped | catalog.go:147-153 | Registrable args without alias under which the confirm of an executed destructive call becomes a pointer, which the handler's reader takes for false |
| CatalogLaws.FoundStaysDescribed | catalogmcp/compile.go:97-103 | An operation the compiler's search found is described, unchanged, at every later moment of the run |
| CatalogLaws.NothingSkipped | catalogmcp/compile.go:97-108 | Whatever is added meanwhile, a Compile looks every found operation up successfully: one description each, in order |
| Paging.ParseList | list.go:68-92 | The limit is the requested size, else a positive default, else none; the cursor is (page-1)*limit or the largest int, decided by the division guard, and 0 for a missing page or one below 2 |
| Paging.SliceExactly | catalogops/list.go:86-97 | What is left from the start on, cut at the limit unless that is 0 |
| Paging.PageIsWindow | catalogops/list.go:86-97 | A page is the stretch of the list from its exact offset, clamped cursor or not |
| Paging.PagesTileTheList | catalogops/list.go:84-97 | Pages 1..ceil(n/size) laid end to end are the list; later pages are empty; without a size every page is the list |
| Paging.EndBeyondStart | list.go:55-63 | In machine arithmetic the end exceeds the start iff the limit is positive and the sum fits |
| PageScan.ScanPagesWithOptions | list.go:130-159 | The fetch loop answers as the page-by-page scan and asks the predicate about exactly its items, in order and once each |
| PageScan.PlainScanExactly | list.go:130-159 | The plain scan: the first item that does not pass decides, as a hit on it or its error |
| PageScan.PagedScanRefinesPlain | list.go:121-159 | For any page size the paged scan gives the answer of one left-to-right scan after the same questions, unless a page it needs fails; then it has asked about exactly the items before that page |
| PageScan.CollectAll | catalogops/dns.go:785-825 | The pages read, their number, and failure, in closed form for any reported total |
| PageScan.CompleteExactly | catalogops/dns.go:778-801 | The list comes back whole iff the total is unreported or not short by a page |
| PageScan.HonestTotalIsComplete | catalogops/dns.go:803-825 | An honest total or none gives the whole list in ceil(n/size), respectively floor(n/size)+1, calls |
| DnsRecords.EraseOnlyMatch | catalogops/dns.go:726-732 | Erasing a triple carried by one record removes that record and keeps the others in order |
| DnsRecords.FindRecordByID | catalogops/dns.go:719-726 | The first record with the id, or none has it |
| DnsRecords.UniqueRecordMatching | catalogops/dns.go:733-753 | The one record with the triple, and exactly when each of the three refusals is given: no content, no such record, several |
| DnsRecords.ResolveTarget | catalogops/dns.go:692-703 | By id through the record's own triple, else by the given triple: the one record singled out, or proof that the input singles out none |
| DnsRecords.TargetByTriple | catalogops/dns.go:659-703 | Without an id: the only record of the stored name ("" for "@"), the capitalized type and the content |
| DnsRecords.TargetByID | catalogops/dns.go:687-703 | With an id: the first record that has it, if it has content and shares its triple with none |
| DnsRecords.DnsRecordsDelete | catalogops/dns.go:628-712 | A scoped delete succeeds exactly when one record is singled out among those listed and nothing fails; it then erases its triple, which removes that record only, the id's own when by id, iff the unlisted rest holds no other: always, unless the reported total is short by a page. An unscoped one removes all of the name and type and keeps every other record. Name, type and content are those written, with "@" for the apex and the type in capitals; a refused delete changes nothing, whatever the number of pages |
| DnsRecords.EraseBeyond | catalogops/dns.go:726-753 | Erasing the only match of a listed prefix removes one record iff the rest has none of its triple |
| DnsRecords.ResolveZoneID | catalogops/dns.go:761-776 | A numeric argument is the id; else the first zone of the domain on any page the reported total reaches; unavailable iff a page that is needed fails, not found iff none fails and no listed zone has the domain |
| Positional.UsageScansBack | positional.go:14-24 | Scanning a usage string returns the names it was written with |
| Positional.NoNameScans | positional.go:14-24 | Empty brackets open no name, and without a closing bracket there is none |
| Positional.SlotFallsBack | positional.go:89-101 | A label that names no arg lands on the first string arg, and on itself only without one |
| Positional.MapPositionalArgs | positional.go:48-82 | In-place right-aligned binding: result map and error are decided by the map on entry, on success every value stands under the key its slot drives; too many values change nothing |
| Positional.BindSlots | positional.go:58-81 | The loop binds the slots before the first conflict and reports that conflict, although it tests the map it is writing to |
| Positional.BindingIsSafe | positional.go:65-81 | Changed keys are those of bound slots, pairwise distinct and in order; a non-empty string is never overwritten, also on error |
| Positional.BindingSucceedsExactly | positional.go:65-81 | Success iff the slots name different args none of which was given as a flag |
| Positional.BindingsPlace | positional.go:48-101 | After a success a slot that names a declared arg has its value under that name, any other under the first string arg, and no other key changed |
| Positional.NamedSlotsBind | positional.go:65-81 | Slots naming different declared args, none given as text, always bind, each to its own value |
| CompilerGap.AnyReachesExact | catalogmcp/compile.go:94-111 | Some resolver is reached iff an operation before the first bad schema, or that one, reaches it |
| CompilerGap.ReachesExactly | catalogmcp/compile.go:267-281 | Which target's resolver is reached, by index: a fallback that consults the profile, behind fallbacks without any text |
| CompilerGap.DescriptionsAppend | catalogmcp/compile.go:97-111 | One description for each operation found by Describe, in order, none for another |
| CompilerGap.Compiler.AdapterGap | catalogmcp/compile.go:70-76 | Returns the recorded gap and clears it |
| CompilerGap.Package.ForgeProfileOf | catalogmcp/profile.go:134-151 | A foreign profile is recorded on the active compiler, any other changes nothing |
| CompilerGap.Package.ResolveDescription | catalogmcp/compile.go:267-281 | The description of the target walk, and a gap iff the walk reached a resolver with a foreign profile |
| CompilerGap.Package.Compile | catalogmcp/compile.go:83-111 | Leaves nobody active; holds a gap iff its own profile is foreign and a resolver was reached, also when it ends in an error |
| CompilerGap.CompileInTurn | catalogmcp/compile.go:65-76 | Two compilers one after the other each read back exactly their own gap |
| CompilerInterleaving.EveryInterleaving | catalogmcp/compile.go:40-48 | In every interleaving the pointer is nil or names a compiler whose Compile is in progress, and gaps name foreign profiles only |
| CompilerInterleaving.EveryRun | catalogmcp/compile.go:40-48 | The same for every run from the start, where nobody compiles |
| CompilerInterleaving.PointerExact | catalogmcp/compile.go:95-96 | In every interleaving `activeCompiler` is a compiler iff the last write of it installed that compiler |
| CompilerInterleaving.LoadLandsOn | catalogmcp/profile.go:134-151 | A report goes to the compiler installed last, its own or another, and is lost iff the last write was a Finish or there was none |
| CompilerInterleaving.RecordingExact | catalogmcp/profile.go:142-148 | A thread is about to report on a compiler iff its last move loaded that compiler |
| CompilerInterleaving.AttributionExact | catalogmcp/compile.go:65-76 | In every interleaving a compiler holds a gap iff the last write of its slot stored it, for a resolver that had loaded the pointer while this compiler was the last installed |
| CompilerInterleaving.SerialIsolation | catalogmcp/compile.go:87-96 | A Compile that overlaps no other leaves its compiler a gap iff a resolver met the foreign profile, and none to others |
| CompilerInterleaving.OverlapMisattributes | catalogmcp/profile.go:142-148 | A concrete overlapping run in which the gap lands on the wrong compiler |
| CompilerInterleaving.OverlapLoses | catalogmcp/profile.go:142-148 | One in which it lands on none |
| CacheRebuild.ApplyEvents | core/vault/sync.go:88-258 | The loop over one batch writes, in order, and counts exactly the deletions and the uploads with readable metadata |
| CacheRebuild.AppliedKeeps | core/vault/sync.go:88-258 | What is written of a log: the events at exactly the places of its deletions and readable uploads, in order |
| CacheRebuild.Sync | core/vault/sync.go:51-292 | One batch of at most 100 events: the cursor passes all of it, deletions and readable uploads are written in order, and the count is their number |
| CacheRebuild.Drain | catalogops/vault.go:1017-1026 | The loop ends with the cursor at the end of the log, every deletion and readable upload of the log written as often as it has it, in order, and nothing else, the count their number, after exactly floor(n/100)+1 calls; it fails iff one of these calls does |
| CacheRebuild.Restore | catalogops/vault.go:1719-1724 | Putting the old file back works iff its rename does, whatever the remove left; until then the old file is intact |
| CacheRebuild.BuildIndex | catalogops/vault.go:1726-1757 | The new file is created, opened and filled from the log, and no other path is written; it succeeds iff no step fails |
| CacheRebuild.VaultCacheRebuild | catalogops/vault.go:1704-1766 | The original is at the path or at `.old` at every step until success drops it; after a failure it is back; success leaves the index of the whole log |
| MxContent.IsValidLabel | dnsutil/dnsutil.go:146-163 | Letters, digits and inner hyphens, 1 to 63 of them |
| MxContent.IsValidDomain | dnsutil/dnsutil.go:115-142 | At least two valid labels, 253 characters without the trailing dot |
| MxContent.ValidMXExactly | dnsutil/dnsutil.go:203-226 | Valid content is a domain, or a number up to 65535 and a domain |
| MxContent.NormalizeMXContent | dnsutil/dnsutil.go:238-266 | For any content: a single field is the host, two are priority and host if the first is a number up to 65535, else the content is the host; the explicit priority wins over the written one, and that over 10 |
| MxContent.PrintedContentReads | dnsutil/dnsutil.go:203-226 | A printed priority and host is valid content with that priority and host |
| MxContent.CanonicalRoundTrip | dnsutil/dnsutil.go:232-266 | Normalizing valid content keeps it valid, keeps the host, carries the winning priority, and is idempotent |
| PlatformRoots.SubdomainLabelExact | catalogops/websites.go:542-554 | A non-empty label comes back iff the domain is label, dot, root, up to case |
| PlatformRoots.PlatformClaimForDomain | catalogops/websites.go:514-540 | No claim iff the domain is under no enabled non-empty root; else the first of the longest matching roots with its label |
| PlatformRoots.EqualLengthSameRoot | catalogops/websites.go:514-540 | Matching roots of equal length are one root up to case, under one label |
| PlatformRoots.ListOrderIrrelevant | catalogops/websites.go:514-540 | The order of the root list changes at most casing and namespace of a claim |

## Left out

- The other handlers of `catalogops` (billing, quota, users, keys, ENS, pins, auth): service calls and field copying around SDKs that are not part of this model.
- `ValidateMCPRequired` and the JSON schema builders (catalog.go:939-992, 1235-1364): a second use of the same missing-arg test, and marshalling; a descriptor carries its args in place of the schema.
- The schema edits of catalogmcp (`applyAgentArgHelp`, `addRequired`, `removeRequired`): filters on one list; whether the schema decodes is a parameter of `CompiledOp`.
- Error texts: errors are constructors. The counts and lists inside messages are not modelled.
- Unicode: case folding, trimming and fields are ASCII; strings are sequences of characters, lengths count characters.
- Signed zero and float rounding: reals have neither; `toFloat` is a parameter.
- `time.ParseDuration`, `strconv.ParseFloat`: parameters of `Env`, so a duration or float default is only known to read the same twice.
- The mutex of the registry: each catalog method is one atomic step; handlers are not modelled, so neither is a handler that calls back into the catalog.
- Authentication, zone service construction and context cancellation before the delete: `DnsRecordsDelete` starts when the zone is resolved.
- Lists that change between two page fetches, and event logs that grow while they are drained: the sources are fixed for one call.
- CacheRebuild.Sync: the rows of the index (`promoteCurrent`, tombstones and tags of core/vault/sync.go) are not modelled: an index is the sequence of events written to it, of which its rows are the result.
- Profile selection and registry lookup before a cache rebuild (catalogops/vault.go:1687-1702): `VaultCacheRebuild` starts with the path.
- A pre-existing `.old` file: the first rename replaces it, as in the code, and no claim is made about it.
