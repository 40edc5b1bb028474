# Klopt's compilers, codecs and protocols

A model, with proofs, of the parts of Klopt that other parts take on trust: the compiler from
TypeScript response types to JSON Schema, the canonical JSON behind entity tags and the optimistic
concurrency built on it, what may reach the log of an internal error, the ids, the migration runner,
money on the wire, the reader of the RGS workbook, the rewriting of the published OpenAPI document,
and the queue of the document worker.

`dafny verify dfyconfig.toml` checks all of it.

## How it is organised

- **Response schemas.** `JsonValues` has JavaScript values and what `JSON.stringify` sends; `Schemas`
  the emitted subset of JSON Schema (draft 2020-12) with its meaning; `Types` the types with theirs, a
  graph whose nodes may or may not have a name; `Unions` and `Translation` the stateless translation,
  `UnionShapes` and `SchemaNames` which schemas and names come out; `Meaning` proves that types and
  schemas agree. A value unfolds a type exactly where an instance unfolds a `$ref`, so recursive types
  need no bound on depth. `Converter` is the source's own converter, with its table, placeholders and
  open types, proved to compute the stateless translation; `ResponseSchemas` is one whole conversion
  and the merge over all operations. `Recursion` is the converter's recursion without what it builds,
  on any types; `Termination` proves exactly when it ends, and `Programs` that the converter is given
  exactly those programs. `Limits` says where the promise stops.
- **Entity tags.** `Texts` has strings as UTF-16 code units; `CanonicalJson` the printer, `JsonTexts`
  what it prints; `IfMatch` the header and the machine of readers and writers, in which check and
  write are two steps; `HeaderTexts` which texts of a header are accepted.
- **The log.** `LogRedaction` is the IBAN scanner with its cost, `LogCase` what it does not look at;
  `FrameLocations` one stack line and `FramePaths` the paths in it; `ProfileNames` which names in a
  path are logged; `ErrorStacks` a stack with its causes; `StackTexts` stacks as V8 writes them.
- **Ids, migrations, money, the worker.** `Uuid` and `UuidReading`, `Migrations`, `Money`,
  `ExactQueue`. Migrations and the queue are modelled twice: as a class whose methods are the source's
  loops, and as a machine of many processes that take turns and crash.
- **The workbook.** `WorkbookTags`, `WorkbookText` and `WorkbookWritings` read XML, and
  `WorkbookShapes` and `WorkbookReferences` say what they make of any text; `RgsSheet` converts the
  sheet, and `RgsRecords` says what its records hold.
- **The document.** `OpenApi`, `OpenApiMembers` and `RouteContract`.

Code that works by changing things is a class or a method with a loop, proved against a function, and
the laws are about that function.

## What the proofs found

Where code and documentation disagree, the model follows the code.

- **Undefined without null.** The converter describes undefined as null where it does not drop it.
  `FaithfulObject` gives the exact condition under which this matters: a required property that admits
  undefined (`void`, or a type of nothing but undefined) or an index signature whose values may be
  undefined but not null. Outside these, schema and type agree on every instance.
- **Tuples** are described as arrays of their first element, which for tuples of fixed length is never
  faithful (`TupleNotFaithful`).
- **One name, two types.** Components are found by name. Within one conversion the first of two types
  of one name has its component stay (`Converter.Context.Convert`: the table keeps what it has);
  across operations each conversion has its own table, and the last one wins (`LastWins`,
  `ReplacedWhenDifferent`). The theorems about meaning ask that no other type has the name of one that
  is reached.
- **A name does not always break a cycle.** The converter breaks cycles where it calls itself on a
  type that has a name. TypeScript flattens `A | null` and `next?: A` into a new union without one,
  and properties are taken apart at undefined, so a recursive union alias used in the common way,
  `type A = string | { next: A | null }`, is converted for ever (`RecursiveUnionAliasLoops`): the
  recursion overflows the stack, and the build reports the `RangeError` as a schema that could not be
  derived. `ConversionEnds` has the exact condition for every program.
- **An undefined response** has an empty body, while its schema says null (`EmptyBody`).
- **The scan is better than it says**: the comment claims a linear scan; three runs of the loop body
  per character is the exact factor, although a single scan may pass over blanks of any length.
- **Ids go back** when the clock does, and also at the 3075th call within one millisecond at the
  highest seed: the borrowed millisecond is then ahead of the clock, and the next call starts it over.
- **Profile names** are rewritten where a bare path starts with one of three home directories, and
  nowhere else: `NamesAreHidden` has the exact condition. A `file:` URL below `/home/` keeps its
  profile name, while the comment on `frameLocation` speaks of home profile segments without
  exception.
- **A function called `async`** is taken for the keyword: the frame `at async (/app/x.js:1:2)` is not
  logged, though frames of every other name are (`FrameIsLogged`).
- **The agent's `money`** always shows two places: it agrees with the wire in exactly the currencies
  that have two (`MoneyIsWire`).
- **`minorUnitsFrom`** keeps leading zeros: below 1.00 its result is not the number as it would print.
- **`decode` decodes twice.** Its three passes run one after the other, so what an earlier one wrote a
  later one may read: `&#38;lt;` is read as `<` (`AmpersandReadTwice`), where XML 1.0 section 4.6 has
  `&lt;`. `MixedReadsBack` says exactly when a text comes back.
- **An overdue claim.** `advance` does not ask whose claim it saves, so the exclusion of workers rests
  on no batch outliving its ten minutes (`OneWorkerEach`), and on that exactly (`SharedIffOverdue`).
- **An edit can be lost in spite of `If-Match`.** Neither handler makes the check and the write one
  step: `setup.ts` reads and writes in separate transactions, and in `sales.ts` the one transaction
  has the default isolation and takes no lock on what it read, although its comment names this very
  gap. Two edits made from one tag can both pass and both be written (`UpdateLost`); `NoLostUpdate`
  says exactly when nothing is lost, and `NoneLostAtOnce` that nothing is where check and write are as
  one.
- **`If-Match` compares weakly**, as its comment says, where section 13.1.1 of RFC 9110 asks for the
  strong comparison; `WeakOffersDiffer` says exactly when the two differ.

## Model

| member | source | states |
|---|---|---|
| Meaning.MeaningPreserved | apps/web/scripts/response-schemas.ts:93-288 | With a correct component table, for a type that is safe with all it can reach, cyclic types included, where nothing else has a name of theirs: an instance is accepted by its schema exactly when it is what `JSON.stringify` sends for some value of the type |
| Meaning.Sound | apps/web/scripts/response-schemas.ts:93-288 | One half, also behind any chain of references not yet entered: what a value of the type is sent as, is accepted |
| Meaning.Exact | apps/web/scripts/response-schemas.ts:93-288 | The other half: for every accepted instance there is a value of the type that is sent as it |
| Meaning.DroppedProp | apps/web/scripts/response-schemas.ts:257-272 | A property that may be undefined, and so be left out on the wire, is not in `required` |
| Meaning.SoundProp | apps/web/scripts/response-schemas.ts:263-269 | Splitting a property type and dropping `undefined` keeps every value that is there |
| Meaning.ExactProp | apps/web/scripts/response-schemas.ts:263-269 | and adds none |
| Meaning.AliasLayer | apps/web/scripts/response-schemas.ts:96-117 | A type with an identity is answered, by reference if it has a name, as if it were written in place |
| Meaning.ObjectLayer | apps/web/scripts/response-schemas.ts:246-288 | What the object schema demands of properties, `required` and `additionalProperties`, property by property |
| Unions.UnionOfMeans | apps/web/scripts/response-schemas.ts:188-217 | For every non-empty list of schemas the simplified union accepts an instance exactly when some member does |
| Unions.UnionOfRefers | apps/web/scripts/response-schemas.ts:188-217 | Simplification neither drops a `$ref` nor invents one |
| Unions.CollapseMeans | apps/web/scripts/response-schemas.ts:235-244 | Two boolean constants together mean `boolean` |
| Unions.BuildUnion | apps/web/scripts/response-schemas.ts:188-217 | The steps of `unionOf` compute the function the laws are about |
| Unions.DedupeParts | apps/web/scripts/response-schemas.ts:322-332 | The loop keeps each part once |
| Unions.DedupeOnce | apps/web/scripts/response-schemas.ts:322-332 | No part is left twice, and (`Dedupe`) none is lost |
| Unions.AsEnum | apps/web/scripts/response-schemas.ts:220-233 | The loop gives the literals exactly when there are two or more constants of one kind |
| Unions.EnumMeans | apps/web/scripts/response-schemas.ts:199-202 | An enum accepts what one of its constants does |
| Unions.SingleMeans | apps/web/scripts/response-schemas.ts:204-214 | Each way of making one schema nullable admits null and what it admitted |
| UnionShapes.UnionShape | apps/web/scripts/response-schemas.ts:189-217 | Which schema a union is, for any members, in terms of those left of them (null apart, both boolean constants one boolean type in front, each once in the order written): null, the single one, that one with null in its enum or `type` list, an enum of strings only or numbers only, or the alternatives with null last |
| UnionShapes.OneList | apps/web/scripts/response-schemas.ts:192-195 | and there is only one list of members left |
| UnionShapes.BooleansCollapse | apps/web/scripts/response-schemas.ts:235-244 | With both boolean constants among the members, no boolean constant is left in the schema, and no enum but those that are members themselves; the boolean type stands there instead |
| UnionShapes.BooleanAlone | apps/web/scripts/response-schemas.ts:235-244 | Both boolean constants, in any order and number, are the boolean type, with null `["boolean", "null"]` |
| Unions.DistinctUnion | apps/web/scripts/response-schemas.ts:188-217 | Distinct parts are combined as they stand, in order |
| Unions.StringUnionIsEnum | apps/web/scripts/response-schemas.ts:180-187 | The documented shape: string literals become an enum in the order written, with null at its end if nullable |
| Unions.NullableIsTypeList | apps/web/scripts/response-schemas.ts:180-187 | The documented shape: `X or null` is one `type` list |
| SchemaNames.NodeRefers | apps/web/scripts/response-schemas.ts:93-288 | A schema refers to exactly the names that the types it is converted from refer to: none is lost and none invented |
| SchemaNames.PropertyKeepsName | apps/web/scripts/response-schemas.ts:257-269 | A property of a published type with no undefined in it is a reference to that name, not taken apart |
| SchemaNames.SplitPropertyRefers | apps/web/scripts/response-schemas.ts:262-269 | A property with an undefined in it refers to what its other members refer to |
| SchemaNames.RefusedExactly | apps/web/scripts/response-schemas.ts:141-178 | A type is refused if it is none that JSON has or an object that describes nothing, or if a type that has to be converted for it is, and for no other reason |
| SchemaNames.TupleAccepts | apps/web/scripts/response-schemas.ts:156-161 | Of a tuple only the first element is described, and of an empty one nothing |
| Converter.Context.Convert | apps/web/scripts/response-schemas.ts:93-118 | Whatever was converted before, and whether or not names are unique, `convert` returns the schema the stateless translation gives; the table only grows and keeps what it has, every reference resolves; it fails only when a refused type is reachable; it ends, by (names missing, height), as the recursion of `Recursion` does |
| Converter.Context.ConvertNamed | apps/web/scripts/response-schemas.ts:107-115 | The placeholder of a new name is replaced by its finished component |
| Converter.Context.ConvertStructural | apps/web/scripts/response-schemas.ts:141-174 | The same for a type without its name |
| Converter.Context.ConvertElement | apps/web/scripts/response-schemas.ts:156-161 | The same for an array or a tuple, by its first type argument |
| Converter.Context.ConvertUnion | apps/web/scripts/response-schemas.ts:176-178 | The same for the members of a union, one after the other |
| Converter.Context.ConvertProp | apps/web/scripts/response-schemas.ts:263-269 | The same for one property, split or not |
| Converter.Context.ConvertProps | apps/web/scripts/response-schemas.ts:251-273 | The loop fills `properties` and `required` in declaration order |
| Converter.Context.ConvertObject | apps/web/scripts/response-schemas.ts:246-288 | The same for an object type, the empty one being refused |
| Converter.FinishAlias | apps/web/scripts/response-schemas.ts:111-113 | The table with the finished component is valid again |
| ResponseSchemas.ConvertType | apps/web/scripts/response-schemas.ts:83-91 | The table holds a right schema for each of its names, no `{}` placeholder, and every reference resolves; no chain of references of unique names ends at a refused type, and only a refused type is not converted; where the type is safe with all it can reach, and nothing else has a name of theirs, schema and type agree on every instance |
| ResponseSchemas.NothingRefused | apps/web/scripts/response-schemas.ts:146-171 | With a finished table no chain of references leads to a refused type, as long as no other type has a name on it |
| ResponseSchemas.TablesAgree | apps/web/scripts/build-response-schemas.ts:158-161 | With unique names, two operations that publish one name publish one schema, so `Object.assign` never replaces a component by a different one |
| ResponseSchemas.TablesMerge | apps/web/scripts/build-response-schemas.ts:158-161 | With or without unique names, the merged table holds for each name the schema of some type of that name, and resolves |
| ResponseSchemas.LastWins | apps/web/scripts/build-response-schemas.ts:158-161 | The last operation that publishes a name has its component in the document |
| ResponseSchemas.ReplacedWhenDifferent | apps/web/scripts/build-response-schemas.ts:158-161 | A component is replaced by a different one if and only if two operations publish its name for types that are described differently |
| ResponseSchemas.BuildResponseSchemas | apps/web/scripts/build-response-schemas.ts:119-187 | An artefact has every operation, with its own schema or media type, and one correct table, the merge of all, that resolves them; a body that is safe with all it can reach is described faithfully; with unique names it comes out exactly when every route can be derived |
| Limits.FaithfulObject | apps/web/scripts/response-schemas.ts:257-287 | The exact condition: an object type with faithful parts and at least one value is described faithfully if and only if no required property and no index signature admits undefined without null |
| Limits.RequiredUndefined | apps/web/scripts/response-schemas.ts:264-272 | Where a required property admits undefined (a `void` property), what is sent without it is refused |
| Limits.NullNotSent | apps/web/scripts/response-schemas.ts:132-134 | Where undefined is described as null and null is no value, the schema accepts what is never sent |
| Limits.EmptyBody | apps/web/src/api/runtime.ts:28 | A response that is undefined has an empty body: every value has a body exactly when the type does not admit undefined, and the schema accepts exactly the bodies when and only when a type that admits undefined admits null as well |
| Limits.TupleNotFaithful | apps/web/scripts/response-schemas.ts:156-161 | No tuple type of fixed length is described faithfully |
| Limits.SharedNameNotFaithful | apps/web/scripts/response-schemas.ts:297-306 | Two types of one name that differ in a value cannot both be described by one table, whichever of them it holds |
| Termination.ConversionEnds | apps/web/scripts/response-schemas.ts:93-288 | For every program and type with unique names: the type is converted if and only if no unnamed cycle of calls and nothing refused can be reached; unless something is refused on the way, the conversion ends exactly when every cycle that can be reached calls a type with a name |
| Termination.DoneMeetsNothing | apps/web/scripts/response-schemas.ts:93-288 | One half: a finished conversion has been everywhere, and met neither |
| Termination.RunEnds | apps/web/scripts/response-schemas.ts:93-288 | The other: with every way bounded, the recursion ends from any table |
| Termination.NoLoopIsWithin | apps/web/scripts/response-schemas.ts:93-288 | Without an unnamed cycle every way is bounded, by the number of types |
| Programs.ProgramsHaveNoCycle | apps/web/scripts/response-schemas.ts:96-117 | The programs the converter is verified to end on are exactly those without an unnamed cycle |
| Programs.ReachedIsProgram | apps/web/scripts/response-schemas.ts:96-117 | Where no unnamed cycle can be reached from a type, the part that can be reached is such a program, and the conversion runs on it as on the whole |
| Limits.UnnamedUnionLoops | apps/web/scripts/response-schemas.ts:176-178 | An object type in an unnamed union that has a property of that union is on an unnamed cycle, split or not |
| Limits.RecursiveUnionAliasLoops | apps/web/scripts/response-schemas.ts:263-269 | `type A = string or { next: A or null }`, and the same with `next?: A`: the conversion never ends, although the cycle goes through a named alias |
| Limits.SplitAliasLoops | apps/web/scripts/response-schemas.ts:263-269 | `type A = { next: A } or undefined`: the same, the alias itself being taken apart |
| CanonicalJson.Canonical | apps/web/src/api/etag.ts:47-57 | Two states print alike if and only if they are equal up to key order, undefined members being absent and undefined elsewhere reading as null |
| CanonicalJson.ValuesSeparate | apps/web/src/api/etag.ts:47-57 | Unique decodability: where one printed value ends and what it was can be told from any text it stands in |
| CanonicalJson.QuoteSeparates | apps/web/src/api/etag.ts:48-56 | A printed string ends at its first unescaped quote and gives back its string, surrogates and escapes included |
| CanonicalJson.JoinSeparates | apps/web/src/api/etag.ts:49-56 | Comma-joined texts can be taken apart again in one way |
| CanonicalJson.IntsSeparate | apps/web/src/api/etag.ts:48 | Printed integers can be told apart, also from what follows |
| CanonicalJson.PrintsSame | apps/web/src/api/etag.ts:47-57 | States that print the same are the same |
| CanonicalJson.SamePrints | apps/web/src/api/etag.ts:47-57 | States that are the same print the same |
| JsonTexts.ScalarIs | apps/web/src/api/etag.ts:47-48 | The text of null, booleans, integers and strings, unit by unit, integers without needless zeros |
| JsonTexts.TokenIs | apps/web/src/api/etag.ts:48 | How each unit of a string is written, by the table of section 7 of RFC 8259 |
| JsonTexts.ArrayIs | apps/web/src/api/etag.ts:49 | An array is its elements in order |
| JsonTexts.ObjectIs | apps/web/src/api/etag.ts:51-56 | An object is its defined members, each key with a colon before its value, in ascending order of the keys |
| JsonTexts.LessIs | apps/web/src/api/etag.ts:53 | and that order is the one by code units |
| IfMatch.TagsAgree | apps/web/src/api/etag.ts:36-57 | While hashes do not collide, two states have one tag exactly when they are the same |
| IfMatch.HeaderMatches | apps/web/src/api/errors.ts:477-490 | A header of well-formed tags and `*`, with weak prefixes, white space and commas, is accepted if and only if it offers the current tag or `*` |
| HeaderTexts.AcceptedTexts | apps/web/src/api/errors.ts:477-490 | For any text at all: the edit may go on if and only if somewhere between two commas or the ends the header has the current tag or `*`, with nothing around it but white space and a weak prefix |
| HeaderTexts.SplitPieces | apps/web/src/api/errors.ts:481 | The pieces of a split are exactly what stands between commas or the ends |
| HeaderTexts.NormaliseExact | apps/web/src/api/errors.ts:480 | A piece is compared as a tag if and only if it is that tag so decorated |
| IfMatch.NormaliseWritten | apps/web/src/api/errors.ts:480-482 | Decoration does not change the tag that is compared |
| IfMatch.WeakOffersDiffer | apps/web/src/api/errors.ts:473-482 | The code and the strong comparison differ exactly when what meets the current tag is only marked weak |
| IfMatch.CheckDecides | apps/web/src/api/errors.ts:477-490 | The header of an edit is accepted if and only if it has `*`, or one of the states it quotes is the current one |
| IfMatch.StepJustified | apps/web/src/api/handlers/sales.ts:282-318 | Every read, check and write keeps the invariant: a check passes exactly when one of the quoted states is the one it met, only what passed is written, and no two edits replace one state |
| IfMatch.NoLostUpdate | apps/web/src/api/handlers/setup.ts:276-284 | In every run of any number of clients, with other writes between check and write: a written edit loses no update if the state it replaces is the same as the one it was checked against; and, where it quotes a single state, only then |
| IfMatch.WriteJustified | apps/web/src/api/handlers/setup.ts:276-284 | The same for one written edit |
| IfMatch.NoneLostAtOnce | apps/web/src/api/handlers/sales.ts:282-318 | In every run without a write between the check and the write of another edit, every edit replaces the state it was checked against, and none is lost |
| IfMatch.UpdateLost | apps/web/src/api/handlers/setup.ts:276-284 | Two clients that read, are both checked and are then both written: both pass, and the second replaces a state its client never saw, unless the first changed nothing |
| LogRedaction.RedactIbansInLog | apps/web/src/api/errors.ts:362-376 | The loop writes the redaction; the scan loop runs at most 3 times per unit of text in all, the second pass at most 2 times |
| LogRedaction.IbanSpanEnd | apps/web/src/api/errors.ts:378-411 | The scan from one position finds the span that starts there, or that none does |
| LogRedaction.ScanFrom | apps/web/src/api/errors.ts:383-394 | The first loop, with the number of its runs |
| LogRedaction.CheckBody | apps/web/src/api/errors.ts:397-410 | The second pass never refuses what the first loop took, and costs at most two runs per unit |
| LogRedaction.SpanExact | apps/web/src/api/errors.ts:378-411 | What the greedy scan takes is a span as described without it: head, 15 to 34 letters and digits, as far as it goes; and conversely |
| LogRedaction.NoResidue | apps/web/src/api/errors.ts:362-376 | At no position of the output does a span start |
| LogRedaction.Idempotent | apps/web/src/api/errors.ts:362-376 | Redacting twice is redacting once |
| LogRedaction.RedactionIsLeftmost | apps/web/src/api/errors.ts:362-376 | The output is the input with disjoint spans replaced, left to right |
| LogRedaction.LeftmostUnique | apps/web/src/api/errors.ts:362-376 | and there is only one such division |
| LogCase.SpansAlike | apps/web/src/api/errors.ts:356-358 | Case and separators ignored: texts that differ only in the case of letters and in tab against space have the same spans at every position |
| LogCase.LogsAlike | apps/web/src/api/errors.ts:356-376 | and what is written to the log differs in nothing else |
| LogCase.Classes | apps/web/src/api/errors.ts:413-420 | Letters, digits and separators by their code units |
| LogCase.WholeIban | apps/web/src/api/errors.ts:362-411 | A span is logged as `[iban]`, and what follows it as it would be by itself |
| LogRedaction.LinearScan | apps/web/src/api/errors.ts:362-395 | The scan loop runs at most three times the length of the text, however long the blanks |
| LogRedaction.ThreeIsReached | apps/web/src/api/errors.ts:362-395 | For every length of blanks there is a text that takes 3 times its length less 24: the factor cannot be lowered |
| FrameLocations.LoggedLocations | apps/web/src/api/errors.ts:183-199 | The locations that some line gives are exactly the clean ones, and each of them, put behind `at`, gives itself again |
| FramePaths.LocatedExactly | apps/web/src/api/errors.ts:189-198 | What is logged of a location: the two names as they are, of path, line and column the path without query and profile name and both numbers untouched, if the path may be logged and has no `@`, and nothing otherwise |
| FramePaths.AllowedExactly | apps/web/src/api/errors.ts:225-241 | A path may be logged if and only if it has no white space and is a module of Node's own, or a script at a URL of one of the four kinds or at an absolute path without a scheme, by code units and in either case |
| FramePaths.QueryExactly | apps/web/src/api/errors.ts:258-273 | Of a URL all before the first `?` or `#` is kept, and of any other path everything |
| FramePaths.HomeExactly | apps/web/src/api/errors.ts:212-223 | Below the three home directories the profile name becomes a tilde, and no other path is changed |
| FramePaths.PositionExactly | apps/web/src/api/errors.ts:243-256 | A location is path, line and column if and only if it is a path and two decimal numbers with colons between them |
| StackTexts.FrameIsLogged | apps/web/src/api/errors.ts:183-199 | Every frame of a clean location is logged by it, bare or behind a function name of any text, with `async ` or without; except that the frame of a function called `async` is not logged at all |
| StackTexts.NamedFrame | apps/web/src/api/errors.ts:184-188 | What a frame with a function name gives, for any text in its last parenthesis |
| StackTexts.OtherLines | apps/web/src/api/errors.ts:184 | A line that does not begin with `    at ` gives nothing |
| FrameLocations.LocatedIsClean | apps/web/src/api/errors.ts:183-199 | What is logged is a clean location: allowed path, no query, no profile name, two numbers |
| FrameLocations.ParsePrinted | apps/web/src/api/errors.ts:243-256 | Parsing around the last two colons undoes printing, whatever colons the path has |
| FrameLocations.RewrittenIsClean | apps/web/src/api/errors.ts:212-241 | Rewriting the profile name keeps a path allowed |
| ProfileNames.ProfileHidden | apps/web/src/api/errors.ts:212-223 | For a bare path below a home directory the logged location does not depend on the profile name |
| ProfileNames.NamesAreHidden | apps/web/src/api/errors.ts:212-223 | The exact condition: of two different names between one root and one rest, both logged, the log shows no difference if and only if they stand behind the query of a URL or in the place of a profile name |
| ProfileNames.NameShows | apps/web/src/api/errors.ts:212-223 | Anywhere else the name is logged as it stands |
| ProfileNames.QueryHides | apps/web/src/api/errors.ts:258-273 | Behind a query nothing is logged |
| ProfileNames.HomeHides | apps/web/src/api/errors.ts:212-223 | In the place of a profile name only what follows it is logged |
| ProfileNames.FileUrlKeepsProfile | apps/web/src/api/errors.ts:212-223 | A witness: a `file:` URL below `/home/` is logged with the profile name |
| ErrorStacks.LocationsFromStack | apps/web/src/api/errors.ts:292-308 | The loop gives one frame for each line that is one and is not a line of the message |
| ErrorStacks.FramesFrom | apps/web/src/api/errors.ts:292-308 | Every frame is clean and comes from a line of the stack that is no line of the message |
| StackTexts.FramesBehindMessage | apps/web/src/api/errors.ts:291-312 | Of a stack that begins with its name and message, every line behind them is logged as the frame it is, unless the message has that line; in order, and nothing else |
| StackTexts.Blocks | apps/web/src/api/errors.ts:151-156 | What stands in front of the frames: name, colon and message, where what is empty is left out |
| ErrorStacks.LinesJoined | apps/web/src/api/errors.ts:296-300 | Splitting undoes joining |
| ErrorStacks.CauseWalk.CauseLocations | apps/web/src/api/errors.ts:314-324 | The frames of the objects visited, in order; `seen` grows by exactly those |
| ErrorStacks.WalkFollowsChain | apps/web/src/api/errors.ts:314-324 | On every graph of causes the walk follows the chain link by link, meets nothing twice and stops exactly where the chain ends, comes round, or nine objects have been seen |
| StackTexts.ChainVisited | apps/web/src/api/errors.ts:314-325 | The causes visited are exactly those along the chain up to its end, its first repetition, or the ninth object seen |
| StackTexts.CausesInOrder | apps/web/src/api/errors.ts:323-324 | and the log has their frames one after the other, none for a cause without a stack |
| ErrorStacks.StackFrames | apps/web/src/api/errors.ts:333-345 | The text that is logged: own frames, then those of the causes |
| ErrorStacks.StackReadsBack | apps/web/src/api/errors.ts:292-345 | Every line logged is clean, and the text, read as a stack, gives the same lines |
| Uuid.Generator.NextCounter | packages/core/src/ids.ts:25-44 | The new state is the one tick of the clock leads to |
| Uuid.Generator.Uuidv7 | packages/core/src/ids.ts:48-72 | One call: the new state and the id of it |
| Uuid.PackInto | packages/core/src/ids.ts:52-64 | The assignments to the buffer, in place, give the layout |
| Uuid.PrintBytes | packages/core/src/ids.ts:66-71 | The printing loop gives the text |
| Uuid.PackedPrefix | packages/core/src/ids.ts:54-62 | The first eight bytes, as one number, are time, version 7 and counter |
| Uuid.PrintedOrder | packages/core/src/ids.ts:66-71 | The text compares as the bytes do |
| Uuid.IdReads | packages/core/src/ids.ts:48-83 | `isUuid` holds, `uuidv7Timestamp` gives back the time, version and variant are set |
| UuidReading.SameId | packages/core/src/ids.ts:46-72 | Two ids are one text if and only if clock and counter agree and the 62 random bits do |
| UuidReading.GroupsRead | packages/core/src/ids.ts:60-72 | The last three groups read back as version and counter, variant and random bits, and random bytes |
| UuidReading.NextReads | packages/core/src/ids.ts:25-44 | What the id of the next call reads as: in a new millisecond its time and the low ten bits drawn, in the same one the counter and one, and behind a full counter the next millisecond and zero |
| Uuid.IdOrder | packages/core/src/ids.ts:48-72 | Ids compare as strings exactly as (time, counter), whatever the random part |
| Uuid.CallOrder | packages/core/src/ids.ts:25-72 | An id follows the one before it exactly when the clock is not behind that one |
| Uuid.IdsAscend | packages/core/src/ids.ts:25-72 | The ids of a run ascend if and only if no call is behind the id before it |
| Uuid.CapacityAscends | packages/core/src/ids.ts:25-44 | With a clock that never goes back and at most 3074 calls per millisecond value they ascend |
| Uuid.BurstCapacity | packages/core/src/ids.ts:25-44 | Tight: calls in one millisecond ascend if and only if there are at most 4097 less the seed |
| Migrations.Database.RunMigrations | packages/db/src/migrate.ts:43-108 | One run: the fresh files in name order up to the first changed or failing one, what it reports, and the lock released |
| Migrations.Database.Begin | packages/db/src/migrate.ts:91-98 | Effect and row together, or neither |
| Migrations.NeverTwice | packages/db/src/migrate.ts:43-108 | In every interleaving, with crashes and lost locks: no effect twice, effects and rows agree |
| Migrations.EachRunItsOwn | packages/db/src/migrate.ts:46-107 | In every interleaving, with crashes and lost locks: each process commits its own files only, in name order, those unknown to the table it read, up to where it has come, and none from a changed or failing file on |
| Migrations.StepWorks | packages/db/src/migrate.ts:46-107 | The invariant behind it, kept by every step of every process, the loss of a lock included |
| Migrations.EachRunAlone | packages/db/src/migrate.ts:46-107 | While locks are kept: what came into the log between the start and the end of a run is what it committed, so that it did to the database exactly what it does alone |
| Migrations.StepUndisturbed | packages/db/src/migrate.ts:46-61 | The invariant behind that, kept by every step other than losing a lock |
| Migrations.AloneItCompletes | packages/db/src/migrate.ts:43-108 | From the start, a process of whose files none was edited can get through to the end by itself, without a failure |
| Migrations.CleanAfter | packages/db/src/migrate.ts:65-100 | A completed run reaches the state of a clean one if and only if what was there is a prefix of its files |
| Migrations.StepOnTheWay | packages/db/src/migrate.ts:65-107 | The invariant behind convergence, kept by every step, lost locks included: what a process has passed is in the table, so that what it commits next is the next file of the final state |
| Migrations.Converges | packages/db/src/migrate.ts:65-107 | If new files always sort after applied ones, every schedule, with crashes and lost locks, stays on the way to one state; what a completed run carries is applied, and after one with all files that state is reached |
| Money.RoundTrip | packages/core/src/money.ts:65-106 | `fromWire` undoes `toWire`, for every amount and number of minor digits |
| Money.FromWireExact | packages/core/src/money.ts:84-106 | `fromWire` refuses exactly the malformed and the over-precise, and gives the others their worth, unrounded |
| Money.MatchExact | packages/core/src/money.ts:82 | The pattern accepts exactly the grammar and splits it in the only way there is |
| Money.WireShape | packages/core/src/money.ts:65-80 | How an amount is written: all minor digits, no needless leading zero |
| Money.NormalForm | packages/core/src/money.ts:65-106 | Two amounts have one written form just when they are worth the same, and that form reads as itself |
| Money.MoneyIsWire | apps/mcp/src/provenance.ts:73-86 | For every amount and currency: what the agent is shown is what the wire carries if and only if the currency has two minor digits (not JPY, KRW, ISK, BHD, KWD, TND) |
| Money.Exponents | packages/core/src/money.ts:38-51 | Which currencies have no minor unit and which have thousandths, in either case of letters |
| Money.WireDigits | packages/core/src/money.ts:65-80 | How many minor digits there are is read off what is written |
| Money.MinorUnitsExact | apps/mcp/src/provenance.ts:59-71 | A decimal of at most two places, with point or comma and white space around it, is taken for its worth |
| Money.MinorUnitsRefused | apps/mcp/src/provenance.ts:59-67 | and everything else is refused, nothing more |
| Money.DecimalBack | apps/mcp/src/provenance.ts:59-86 | The decimal shown comes back as the same amount; as text it is the same number exactly from 100 minor units on |
| WorkbookTags.Tags | tools/rgs-import/src/xlsx.ts:21-36 | The loop over `lastIndex` yields the elements the scan defines |
| WorkbookTags.TagsReadBack | tools/rgs-import/src/xlsx.ts:21-36 | Scanning written elements gives exactly those elements in order, self-closing ones, nested look-alikes in bodies and longer tag names in between included |
| WorkbookTags.ListTagIsInert | tools/rgs-import/src/xlsx.ts:85-100 | The tag of a list, `<sheets>` before `sheet`, opens no element |
| WorkbookTags.WriteFound | tools/rgs-import/src/xlsx.ts:25-34 | The next element found is the one that was written, and the search goes on at its closing tag |
| WorkbookTags.TagOpens | tools/rgs-import/src/xlsx.ts:22 | The opening pattern reads a written opening tag as its attributes |
| WorkbookShapes.OpensExactly | tools/rgs-import/src/xlsx.ts:17-42 | For any text: it begins with an opening tag if and only if it begins with the name and then nothing, a slash, or white space and anything up to the first `>`, and attributes and slash are read from that |
| WorkbookShapes.NextExactly | tools/rgs-import/src/xlsx.ts:17-42 | For any text: the next element is that of the first opening tag, up to the first closing tag behind it |
| WorkbookText.EscapedReadsBack | tools/rgs-import/src/xlsx.ts:51-58 | `decode` undoes escaping with the predefined entities, on every string and whichever of the optional ones are used |
| WorkbookText.NumbersReadBack | tools/rgs-import/src/xlsx.ts:51-58 | Text written wholly in decimal references comes back if and only if it holds no entity |
| WorkbookWritings.MixedReadsBack | tools/rgs-import/src/xlsx.ts:51-58 | However each unit is written, as it stands, by name, in decimal or in hexadecimal, the text comes back if and only if no pass finds a reference that has not been written for it |
| WorkbookWritings.PassWrites | tools/rgs-import/src/xlsx.ts:51-58 | What one pass makes of a writing: the same units if it finds what was written for it, fewer if it finds more |
| WorkbookWritings.NumberIsReference | tools/rgs-import/src/xlsx.ts:51-58 | Digits between `&#` or `&#x` and a semicolon are a reference, whatever follows |
| WorkbookWritings.EntityIsReference | tools/rgs-import/src/xlsx.ts:43-49 | So are the five names |
| WorkbookReferences.NumbersExactly | tools/rgs-import/src/xlsx.ts:43-58 | For any text: it begins with a numbered reference if and only if it begins with lead, digits and semicolon, and that number is meant, the last digit counting least |
| WorkbookReferences.DigitValues | tools/rgs-import/src/xlsx.ts:43-58 | Which units are digits, hexadecimal ones in either case, and their values |
| WorkbookReferences.Names | tools/rgs-import/src/xlsx.ts:43-58 | The five names and what they stand for |
| WorkbookReferences.CodePoints | tools/rgs-import/src/xlsx.ts:43-58 | A code point is one unit or the surrogate pair that stands for it, and behind U+10FFFF there is none |
| WorkbookWritings.AmpersandByNumber | tools/rgs-import/src/xlsx.ts:51-58 | An ampersand by its number, before the rest of an entity, is read twice |
| WorkbookWritings.AmpersandReadTwice | tools/rgs-import/src/xlsx.ts:51-58 | `&#38;lt;` is read as `<` |
| WorkbookText.TextOf | tools/rgs-import/src/xlsx.ts:61-65 | The loop gives the decoded bodies, one after the other |
| WorkbookText.RunsReadBack | tools/rgs-import/src/xlsx.ts:21-65 | A string stored as runs of escaped text is read as the text of its runs |
| RgsSheet.ConvertSheet | tools/rgs-import/src/main.ts:71-183 | Succeeds if and only if header and columns are there, every coded row is good, no code comes twice and no uncoded row stands before a coded one; a failure names something true of the sheet |
| RgsSheet.ConvertRows | tools/rgs-import/src/main.ts:101-159 | The loop over the rows: records, corrections, gaps |
| RgsSheet.NothingDropped | tools/rgs-import/src/main.ts:101-182 | A converted sheet: the coded rows are those at the front, and `codes` is a sorted permutation of exactly their records, with distinct codes |
| RgsRecords.RecordTexts | tools/rgs-import/src/main.ts:150-156 | Each text of a record is the trimmed cell under its own heading, and the default where there is none |
| RgsRecords.RecordMarks | tools/rgs-import/src/main.ts:157-160 | Debit or credit in capitals, a level from 1 to 5, inactive where anything is marked |
| RgsRecords.RecordFlags | tools/rgs-import/src/main.ts:121-130 | The flags are exactly the other headings under which the row has a `1` |
| RgsRecords.GoodRows | tools/rgs-import/src/main.ts:121-148 | Which rows are good: flags that are ones, D or C in either case or nothing, a whole level from 1 to 5 |
| RgsRecords.HeaderIs | tools/rgs-import/src/main.ts:76-79 | The header is the first row with the heading `Referentiecode` |
| RgsRecords.NeededColumns | tools/rgs-import/src/main.ts:91-95 | The four columns without which there is no sheet |
| RgsRecords.LoweredRows | tools/rgs-import/src/main.ts:136-140 | A debit or credit is reported as corrected exactly where it has a small letter |
| RgsSheet.SortSorts | tools/rgs-import/src/main.ts:161 | The codes come out in order |
| OpenApi.RewritingRenames | apps/web/src/api/openapi.ts:208-220 | The references of the rewritten document are those of the document, renamed |
| OpenApi.RewritingPublishes | apps/web/src/api/openapi.ts:208-220 | No reference to `#/$defs/` is left; exactly the documents without one are unchanged |
| OpenApi.DescribingSettles | apps/web/src/api/openapi.ts:190-205 | No clock marker is left; exactly the documents without one are unchanged |
| OpenApi.Idempotent | apps/web/src/api/openapi.ts:190-220 | Each rewriter, applied twice, is applied once |
| OpenApi.RewritersCommute | apps/web/src/api/openapi.ts:190-220 | It does not matter which is applied first |
| OpenApi.DescribingRefers | apps/web/src/api/openapi.ts:190-205 | Describing clock defaults adds no reference |
| OpenApi.LiftingCloses | apps/web/src/api/openapi.ts:161-175 | If the generated references go to its definitions or to components, then after lifting every reference of the document resolves |
| OpenApiMembers.DescribedMembers | apps/web/src/api/openapi.ts:188-205 | Member by member: what goes, what stays, and what the description of a clock default says |
| OpenApiMembers.References | apps/web/src/api/openapi.ts:208-220 | A reference to `#/$defs/X` is one to `#/components/schemas/X` |
| OpenApiMembers.OtherMembers | apps/web/src/api/openapi.ts:208-220 | and every other member is rewritten inside only |
| OpenApiMembers.RootMembers | apps/web/src/api/openapi.ts:161-175 | The published schema has every generated member but the dialect and the definitions |
| OpenApiMembers.DefinitionMembers | apps/web/src/api/openapi.ts:170-173 | Every definition, and nothing else, becomes a component of its name |
| OpenApi.Document.ToJsonSchema | apps/web/src/api/openapi.ts:161-175 | The loop adds the lifted definitions to the components and nothing else |
| RouteContract.FindContractViolations | apps/web/src/api/manifest.ts:985-1033 | The three loops report the list of violations, in order |
| RouteContract.ContractHolds | apps/web/src/api/manifest.ts:985-1033 | The report is empty if and only if method and path are pairwise distinct, operations are bound once, and exactly the registered ones are bound |
| RouteContract.ReportSays | apps/web/src/api/manifest.ts:985-1033 | A fault of any of the four kinds is reported if and only if it is one |
| RouteContract.RouteIsMethodAndPath | apps/web/src/api/manifest.ts:993-1001 | The text a route is compared by is the same exactly for the same method and path |
| ExactQueue.Queue.ImportExactDocuments | apps/worker/src/exact.ts:99-197 | One tick: which run gets its batch and the whole queue after it, against a description in one pass |
| ExactQueue.Queue.Claim | packages/db/src/repositories/exact-documents.ts:151-200 | The oldest run that waits or whose lease is over becomes `running` |
| ExactQueue.Queue.Advance | packages/db/src/repositories/exact-documents.ts:203-231 | The row of a run after it is saved: its state, its cursor, the sum of what was stored, and the time |
| ExactQueue.InHand | apps/worker/src/exact.ts:113-134 | The loop meets the unusable runs in order and leaves at the first usable one |
| ExactQueue.WhoIsClaimable | packages/db/src/repositories/exact-documents.ts:151-200 | Pending, paused, or running and not written to for more than ten minutes |
| ExactQueue.NoneStranded | apps/worker/src/exact.ts:109-187 | A run that is `running` after a tick is as it was before it |
| ExactQueue.RowAfterTick | apps/worker/src/exact.ts:99-197 | Every row after a tick: the chosen run with the cursor of its batch and the sum of what was stored, `pending` where there is more to do; the unusable ones before it failed, at most fifty-one; all others as they were |
| ExactQueue.TurnComesBetween | apps/worker/src/exact.ts:58-134 | Behind w unusable runs that wait and r that are held, whatever stands behind, a usable run gets its batch no earlier than in tick w / 51 + 1 and no later than in tick (w + r) / 51 + 1, and no batch is done before |
| ExactQueue.TurnComes | apps/worker/src/exact.ts:58-134 | With none held in front it is tick w / 51 + 1 exactly |
| ExactQueue.OneWorkerEach | packages/db/src/repositories/exact-documents.ts:151-200 | In every interleaving of workers, with crashes: while no batch outlives its lease no run has two workers, and each saves on top of its own claim |
| ExactQueue.SharedIffOverdue | packages/db/src/repositories/exact-documents.ts:151-200 | With no worker between selecting and taking, and at least two workers: without time passing some schedule puts two of them on one run if and only if one is past its lease |
| ExactQueue.OverdueIsShared | packages/db/src/repositories/exact-documents.ts:151-200 | The oldest claimable run, being overdue, is taken by the next worker, and then two are at it |

## Left out

- Limits.TupleNotFaithful: tuples of the model have a fixed length; one with a rest element may be described exactly.
- Types.Program: the TypeScript checker is not part of this model; a type is a node of a finite graph, given with the property list, flags and index signature the checker would report. A name of the model is one that `nameOf` accepts (its pattern and its list of utility names are not modelled).
- ResponseSchemas.ConvertType: takes programs without an unnamed cycle; that these are the ones it ends on is proved, and that others can be cut down to what is reached. No name is that of a primitive and of something else: the checker names no primitives. The text and path of the error are not modelled.
- Termination.ConversionEnds: assumes unique names. Where both a refused type and an unnamed cycle can be reached, which of them is met first is not said.
- ResponseSchemas.BuildResponseSchemas: what `handlersIn` and the checker say of a route is an input, and the final sort of the keys is not modelled: operations and components are maps.
- Meaning.MeaningPreserved: numbers are reals, without NaN, infinities and negative zero; a property named `__proto__` is not special.
- CanonicalJson.Canonical: no floats, bigint, Date, functions or sparse arrays, and no integers that print with an exponent. Keys are distinct.
- IfMatch.NoLostUpdate: SHA-256 is a function that does not collide on the states of the run. What an edit writes is any state, so that a patch of the state it replaces is covered; what else a handler refuses between check and write is an edit that is never written.
- Uuid.IdReads: times are below 2^48 - 1. Random bytes are parameters, and bit operations are written as arithmetic.
- Migrations.Database.RunMigrations: names are their ranks in the collation order, a checksum stands for the content, and the statements of a file are one effect that goes through or not.
- Migrations.EachRunAlone: assumes that no run loses its lock with its connection, since then another may commit in between; `NeverTwice`, `EachRunItsOwn` and `Converges` do not.
- Money.FromWireExact: the upper-casing of currency codes is that of ASCII.
- ProfileNames.NamesAreHidden: a name is a path segment, without separators, white space, `?`, `#` and `@`.
- FrameLocations.LoggedLocations: the lower-casing of a path is modelled as far as a comparison with ASCII prefixes can see it.
- ErrorStacks.CauseWalk.CauseLocations: reading a property is a lookup that gives a value or nothing; a getter that throws gives nothing, and one that answers differently each time is not modelled.
- WorkbookTags.TagsReadBack: between elements, what starts like an opening tag of the name goes on as a longer name, and attributes hold no `>`.
- WorkbookWritings.MixedReadsBack: the condition is on what the passes find, not on the units alone.
- RgsSheet.ConvertSheet: `Number` and the order of `localeCompare` are parameters; the reading of one row's cells and flags is a function rather than a loop, and upper-casing is that of ASCII. Headings that are names of `Object.prototype` are not special.
- OpenApi.LiftingCloses: the order of keys is not modelled, and what Zod generates is any JSON tree.
- ExactQueue.TurnComesBetween: credentials stay as they are, no run is requested anew, and no call throws. Within one tick the clock stands still.
- ExactQueue.Queue.ImportExactDocuments: the batch itself and the token exchange are not part of this model; what a batch reports is a function of the run. The four counters are one.
- The rest of the XML reader (`attribute`, relationships, cell references) and the unzipping.
- `toProblem`, `loggedErrorName` and the HTTP side of errors: one branch settles each.
- The accounting domain (ledger, VAT, bank), authentication, rate limits, pages, command line and MCP tools.
