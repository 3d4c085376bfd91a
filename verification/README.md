# Verified model of chasm

chasm is a mock server for OpenAPI 3 documents. This project models the parts of it that interpret
schemas and routes, and the shared metrics, and proves what they promise. `dafny verify dfyconfig.toml`
checks everything.

- **Schemas as JSON.** `Json`, `Strings`, `Keys` and `Pointers` hold the documents, the text primitives,
  the visiting order of an ordered JSON object, and JSON Pointer (RFC 6901 sections 3 and 4). `Merge` is
  the collapse of `allOf`, `RefResolver` resolves references and builds the index of declared names,
  `StaticWalker` and `TerminalWalker` are the two walks guarded by a list of visited references.
  `BaseUris` says which names a document declares and where references to them lead, `StaticCollapse` what
  collapsing and the static walk keep, `TerminalScalars` what the other walk makes of scalars.
- **Validation.** `Schemas` are the typed schemas, `Validator` the errors a value collects, `ErrorLogs`
  the recursion that appends them in place, `Acceptance` what a schema means, said without error lists, and
  `Blame` what each error says; `Formats` are the string formats the validator enforces.
  `Compositions` says when components have the rank validation terminates by. `Probe` shows that errors do
  not depend on where a value sits, `Forgiveness` what the filter under `allOf` lets through. `Normaliser`
  are the rewrites from OpenAPI 3.1 to 3.0, `Dialects` what the trees mean on either side (JSON Schema
  Validation 2020-12 sections 6.1.1, 6.2.3 and 6.2.5), and `Documents` what whole documents mean.
- **Generators.** `Randoms` is the random source: every draw is an arbitrary value of its range, so
  everything holds for every seed. `PatternText`, `PatternGenerator`, `Regexes`, `RegexScan`,
  `RegexSoundness` and `RegexEmission` are the hand-written pattern generator against the language of the
  expression; `ArrayGenerator` and `Contains` array lengths and the repair of `contains`; `Multiples` the integer
  arithmetic of `multipleOf`. `SchemaText` and `StaticMeetsValidator` join both crates: what the static
  walk makes of a schema passes the validator.
- **Routing.** `Templates`, `TemplateReading`, `Matching` and `Router` are the path router, `RouteLabels` the
  second matcher used for metric labels, `RouteChoice` which template and path decide, `Negotiation` and `AcceptHeader` the
  choice of a content type (RFC 9110 section 12.5.1).
- **Metrics.** `Registries`, `Counters`, `Histograms`, `Snapshots` and `Gauge` are the shared registry as
  interleaved steps of any number of calls: one step per lock operation, atomic operation or table access.

Where the code and its documentation part ways the model follows the code, and a lemma shows it:
`Forgiveness.AllOfBesideIsExact`, `Forgiveness.BesideIsExact`, `Merge.NamedLikeAKeyword`,
`RefResolver.IndexFollowsExactly`, `TerminalWalker.FoldKeepsRequired`, `Dialects.SideExactly`,
`Dialects.PairBesideEnum`, `Dialects.ConstantIsRewritten`, `Dialects.DroppingItems`, `RegexScan.GroupReadExactly`,
`RegexScan.EscapedDash`, `RegexScan.ClassIsExact`, `PatternText.SafeExactly`, `ArrayGenerator.LengthOrReport`,
`ArrayGenerator.RepairOutgrows`, `Contains.CrossedBounds`, `Matching.ShortcutsAgree`, `Router.RawPathCandidate`,
`Negotiation.PickIsFirst`, `Acceptance.MappedIsTaken`, `StaticCollapse.CollapseDemandsAll`,
`TerminalScalars.RoundedPastTheMinimum`, `RouteChoice.InsideASegment`, `Formats.PlaceholdersPass`. Most of these
say for all inputs exactly when the code does what is meant.

## Model

| member | source | states |
|---|---|---|
| RegexSoundness.GeneratedMatches | crates/chasm-faker/src/generators/string.rs:581-674 | Every string the generator may emit for the text of a covered expression (literals, `.`, the escape classes, every sound class of items the scanner reads one by one, every group that is read whole, every quantifier, top-level alternation, anchors at the ends) is in the language of the expression, unless it reports a capped quantifier; and with all written bounds within the cap, without exception |
| RegexSoundness.CoveredIsSafe | crates/chasm-faker/src/generators/string.rs:677-700 | On such a text no choice leads the scanners to slice out of range |
| RegexEmission.EmitsExactly | crates/chasm-faker/src/generators/string.rs:581-674 | For every covered expression: the generator emits exactly what the tree says, each character from its literal set of characters and each quantifier between its least and greatest count, `*` and `+` up to five and an open minimum up to five more, no count above 1024 |
| RegexEmission.CappedExactly | crates/chasm-faker/src/generators/string.rs:777-845 | With all written counts up to 1024 no outcome is reported as capped; with a reached quantifier above it every outcome is |
| RegexEmission.GenerateFor | crates/chasm-faker/src/generators/string.rs:581-674 | So a run on a covered expression without such counts gives a string of its language and leaves the recorded error alone, and a run on one with such a count in its first branch ends with an error recorded |
| RegexEmission.BracesDefault | crates/chasm-faker/src/generators/string.rs:794-841 | Braces without a numeral stand for one copy, and missing bounds for one and for five more than the minimum |
| PatternText.SafeExactly | crates/chasm-faker/src/generators/string.rs:581-700 | A text is safe if and only if no chain of choices (what is left after an atom, or an alternative of a group) leads to the text `(` or `[`, the two at which the code slices out of range |
| PatternGenerator.Generate | crates/chasm-faker/src/generators/string.rs:581-674 | The recursive loop: on every run the result, together with whether a quantifier was capped, is one of the outcomes the text allows, and an error is recorded exactly when a quantifier was capped and none was recorded before |
| PatternGenerator.HandleQuantifier | crates/chasm-faker/src/generators/string.rs:777-845 | Takes exactly the text of the quantifier and repeats one unit a number of times it allows; records capped bounds |
| PatternGenerator.DrawBraces | crates/chasm-faker/src/generators/string.rs:794-841 | A count within the capped bounds of a counted quantifier, unparsable numbers defaulting as written |
| PatternGenerator.FindGroupEnd | crates/chasm-faker/src/generators/string.rs:677-690 | The matching parenthesis, or the end of the text |
| PatternGenerator.FindClassEnd | crates/chasm-faker/src/generators/string.rs:693-700 | The first closing bracket, or the end of the text |
| PatternGenerator.SplitAlternation | crates/chasm-faker/src/generators/string.rs:703-720 | The alternatives at the pipes outside inner groups |
| PatternGenerator.ExpandCharClass | crates/chasm-faker/src/generators/string.rs:723-766 | The set of characters of a class, complemented within letters and digits when negated |
| PatternGenerator.PickFromSet | crates/chasm-faker/src/generators/string.rs:769-774 | A member of the set, or `a` when there is none |
| RegexScan.GroupEndOf | crates/chasm-faker/src/generators/string.rs:677-690 | The group-end scanner inverts the printer: a printed group that is read whole ends where it was printed |
| RegexScan.GroupOf | crates/chasm-faker/src/generators/string.rs:677-690 | For every text between the parentheses: the scanner stops at the closing one if and only if that text is balanced; where that parenthesis ends the pattern, if and only if the text closes no more than it opens |
| RegexScan.AlternativesOf | crates/chasm-faker/src/generators/string.rs:703-720 | Splitting a balanced group gives back the text of each branch if and only if each branch is balanced and has no pipe outside parentheses, escaped pipes counting |
| RegexScan.GroupReadExactly | crates/chasm-faker/src/generators/string.rs:677-720 | A printed group is ended and split as printed if and only if it is read whole, escapes and classes counting as text |
| RegexScan.PlainIsReadWhole | crates/chasm-faker/src/generators/string.rs:677-720 | So are all groups, nested ones included, without parentheses and pipes in escapes and classes |
| RegexScan.ClassEndOf | crates/chasm-faker/src/generators/string.rs:693-700 | The class-end scanner inverts the printer |
| RegexScan.MembersAdmitted | crates/chasm-faker/src/generators/string.rs:728-753 | What a printed class lists is what its items admit: only the letters of `\W`, `\n` and `\t` may be listed and not admitted, and of letters and digits only what `\S` and `\D` admit may be admitted and not listed |
| RegexScan.DrawnAdmitted | crates/chasm-faker/src/generators/string.rs:754-774 | Whatever is drawn from a printed class is in it |
| RegexScan.QuantifierOf | crates/chasm-faker/src/generators/string.rs:777-845 | A printed quantifier is read whole, and allows no count the quantifier does not |
| RegexScan.ClassIsExact | crates/chasm-faker/src/generators/string.rs:723-774 | A class is drawn from soundly if and only if: positive, the letters of its escapes `\W`, `\n`, `\t` are admitted by other items; negated, some letter or digit is not listed, `\S` is no item, and beside `\D` every letter is listed |
| RegexSoundness.EscapedParenthesis | crates/chasm-faker/src/generators/string.rs:677-690 | An escaped parenthesis that unbalances its group: the group is not read whole, and an emitted text does not match |
| RegexScan.EscapedDash | crates/chasm-faker/src/generators/string.rs:730-749 | An escaped dash with an item behind it, anywhere in a positive class, is drawn from soundly if and only if every character from the backslash to where that item starts is admitted anyway, and the letter of an escape behind it, and the letters of misread escapes; and the class does not list nothing |
| RegexScan.EscapedLetter | crates/chasm-faker/src/generators/string.rs:738-749 | An escape in a class lists only what it admits if and only if it is not `\W`, `\n` or `\t` |
| Merge.DeepMerge | crates/chasm-faker/src/merge.rs:18-38 | The in-place recursion over the overlay equals the merge function |
| Merge.MergeArraysDedup | crates/chasm-faker/src/merge.rs:41-54 | The concatenation pushes each overlay element that is not there yet |
| Merge.MergeIsNoHigher | crates/chasm-faker/src/merge.rs:18-54 | A merge nests no deeper than its operands |
| Merge.MergeAddsNoReference | crates/chasm-faker/src/merge.rs:18-54 | A merge contains no reference string that neither operand contains |
| Merge.MergeKeepsEveryKey | crates/chasm-faker/src/merge.rs:18-54 | The key set is the union, keys of one side keep their value, and concatenated arrays hold exactly the union of the elements with the base as prefix |
| Merge.KeywordsJoin | crates/chasm-faker/src/merge.rs:10-54 | At a key of both sides: `required`, `allOf`, `anyOf` and `oneOf` hold the base's elements and behind them, each once, those that only the overlay has; elsewhere two objects are merged and anything else is replaced |
| Merge.MergeSelf | crates/chasm-faker/src/merge.rs:18-54 | Merging a document with itself changes nothing if and only if its concatenated keywords hold arrays, along every path that merging follows |
| Merge.MergeCovered | crates/chasm-faker/src/merge.rs:18-54 | An overlay leaves a result equal to itself if and only if it already covers the base |
| Merge.MergeAssociates | crates/chasm-faker/src/merge.rs:18-54 | Merging is associative on three documents if and only if they are regular: wherever an object is overlaid by a non-object and that by an object, the last object covers the first |
| Merge.NamedLikeAKeyword | crates/chasm-faker/src/merge.rs:26-33 | Counterexample: a property named like a concatenated keyword is lost when merged |
| RefResolver.RunNotes | crates/chasm-faker/src/ref_resolver.rs:96-103 | Over any run of lookups the visited list holds the first `max_depth` different references, each once and in order; so a lookup is refused if and only if its reference came before or that many different ones did |
| RefResolver.ResolveNext | crates/chasm-faker/src/ref_resolver.rs:96-136 | A lookup behind any run of others on the same list answers unless its reference came before or the depth is used up, and leaves the list that run and it leave |
| RefResolver.ResolveAddsNoReference | crates/chasm-faker/src/ref_resolver.rs:96-166 | A resolved node contains no reference the document and its external documents do not contain |
| RefResolver.ReferenceRoundTrip | crates/chasm-faker/src/ref_resolver.rs:96-166 | The reference printed for any existing path, the empty one included, resolves to the node at that path |
| RefResolver.IdIndex.CollectIds | crates/chasm-faker/src/ref_resolver.rs:185-228 | The traversal fills the index in visiting order, later declarations overwriting earlier ones |
| RefResolver.IndexedNamesFollow | crates/chasm-faker/src/ref_resolver.rs:144-228 | A name is indexed if and only if some node declares it; and when its path needs no escaping the path leads to a node that declares it |
| RefResolver.IndexedNamesResolve | crates/chasm-faker/src/ref_resolver.rs:96-228 | An indexed identifier resolves to a node that declares it |
| RefResolver.IndexedAnchorsResolve | crates/chasm-faker/src/ref_resolver.rs:96-228 | An indexed anchor resolves to a node that declares it |
| RefResolver.IndexFollowsExactly | crates/chasm-faker/src/ref_resolver.rs:144-228 | In any document, the path kept for a name is followed to a node, which declares the name, if and only if no key on it holds `~0` or `~1`, where no object on the way has a key beside what it unescapes to |
| RefResolver.IndexedNamesResolveExactly | crates/chasm-faker/src/ref_resolver.rs:96-228 | So an indexed identifier resolves if and only if no key on its path holds an escape sequence |
| RefResolver.IndexIgnoresEscapes | crates/chasm-faker/src/ref_resolver.rs:185-228 | The chain of keys, of any length, as an example: the name behind it is found again if and only if no key holds an escape sequence |
| BaseUris.JoinIsExact | crates/chasm-faker/src/ref_resolver.rs:230-267 | An identifier is read against a base in exactly one way: absolute ones stand for themselves, a fragment takes the place of the base's, and any other goes into the base's directory less a leading `./` |
| BaseUris.SeenIsInForce | crates/chasm-faker/src/ref_resolver.rs:185-228 | The base handed down to a node is that of the nearest `$id` above it, read against the base in force there, or else the topmost `id`, or else none |
| BaseUris.OneInForce | crates/chasm-faker/src/ref_resolver.rs:185-228 | There is only one such base |
| BaseUris.IndexIsExact | crates/chasm-faker/src/ref_resolver.rs:185-267 | The index of any document holds exactly the names its nodes declare, each read against the base in force at its node, and for each the last of the declaring paths in visiting order |
| BaseUris.NameLeads | crates/chasm-faker/src/ref_resolver.rs:96-166 | A reference by name leads to the schema supplied for it, or else to the node that declares the name last, or nowhere |
| BaseUris.AnchorLeads | crates/chasm-faker/src/ref_resolver.rs:96-166 | A fragment leads to the last node that declares it, the bare name before the name with its `#`, or else to the whole document |
| Pointers.UnescapeEscape | crates/chasm-engine/src/loader.rs:667-669 | Unescaping undoes escaping for every string |
| Pointers.UnescapeFixes | crates/chasm-engine/src/loader.rs:933-954 | Unescaping changes a string if and only if it holds an escape sequence |
| Pointers.BuildPointer | crates/chasm-engine/src/loader.rs:657-664 | The loop prints `#` and the escaped segments |
| Pointers.ResolvePointer | crates/chasm-engine/src/loader.rs:933-954 | The loop follows the unescaped tokens one by one |
| Pointers.PointerRoundTrip | crates/chasm-engine/src/loader.rs:657-669 | The pointer built for an existing path resolves to the node at that path if and only if the path is neither empty nor the single empty key |
| StaticWalker.WalkStatic | crates/chasm-faker/src/lib.rs:291-401 | Terminates on every schema, leaves the visited list as it found it, and computes the walk function |
| StaticWalker.MergeAllOf | crates/chasm-faker/src/lib.rs:344-368 | Branches are merged in order, references replaced by their targets, and siblings fill the keys no branch declared |
| StaticWalker.WalkArray | crates/chasm-faker/src/lib.rs:425-469 | Prefix items, then filler up to the target; visited list restored |
| StaticWalker.PadItems | crates/chasm-faker/src/lib.rs:443-469 | Filling stops at the minimum when the filler is null |
| StaticWalker.WalkObject | crates/chasm-faker/src/lib.rs:472-517 | Exactly the chosen properties, each walked on its own; visited list restored |
| StaticWalker.EnteringVisits | crates/chasm-faker/src/lib.rs:307-321 | Entering a reference strictly reduces the references not visited yet |
| StaticCollapse.CollapseKeeps | crates/chasm-faker/src/lib.rs:344-368 | Where the branches are objects, a collapsed schema has a key if and only if it is not `allOf` and a branch or the schema has it; a key of no branch keeps the schema's value, a key of one branch that branch's |
| StaticCollapse.CollapseDemandsAll | crates/chasm-faker/src/lib.rs:344-368 | It requires all that the schema and the branches require if and only if no branch writes `required` or the branches require what the schema does |
| StaticCollapse.SiblingIsUnsaid | crates/chasm-faker/src/lib.rs:360-366 | The smallest loss: a branch with a `required` of its own unsays the one beside `allOf` |
| StaticCollapse.ObjectHasKeys | crates/chasm-faker/src/lib.rs:374-517 | With depth left, the value of a schema whose type is written or suggested as object has exactly the keys that are required and, where optionals are wanted, declared |
| StaticCollapse.CollapsedHasKeys | crates/chasm-faker/src/lib.rs:344-517 | So the value of an `allOf` that collapses to an object schema has every key the branches require, or the siblings where no branch writes `required` |
| StaticCollapse.ArrayIsFilled | crates/chasm-faker/src/lib.rs:425-469 | Positions by their own schemas, then `items` up to the wanted number: the minimum, or three where optionals are wanted and the maximum allows them; up to the minimum where items come out null |
| StaticCollapse.ScalarsArePlaceholders | crates/chasm-faker/src/lib.rs:374-422 | Every other written or suggested type has its fixed value |
| Formats.PlaceholdersPass | crates/chasm-faker/src/lib.rs:538-563 | The placeholder of static mode satisfies the format check of the validator for every format but `time` |
| Formats.StaticFormatPasses | crates/chasm-engine/src/validation.rs:1003-1078 | So the static value of a string schema with a format draws an error, a format error, if and only if the format is `time` |
| TerminalWalker.TerminalValue | crates/chasm-faker/src/schema_walker.rs:1012-1104 | Terminates on every self-referential schema by references not visited, then height, leaves the visited list as it found it, and computes the terminal function |
| TerminalWalker.MergeAllOf | crates/chasm-faker/src/schema_walker.rs:1115-1162 | Folds the branches and the references met on the way into the base |
| TerminalWalker.TerminalObject | crates/chasm-faker/src/schema_walker.rs:1166-1193 | Gives exactly the required keys, each the terminal value of its property schema |
| TerminalWalker.TerminalHasRequired | crates/chasm-faker/src/schema_walker.rs:1166-1193 | Wherever collapsing and references land on an object schema, the terminal value holds every key it requires and no other, each the terminal value of its property schema |
| TerminalWalker.FoldKeepsRequired | crates/chasm-faker/src/schema_walker.rs:1115-1162 | For every schema, document and visited list: the folded schema requires exactly what the schema and its merged branches require if and only if every key required before a merged branch that is not an object is required again after it |
| TerminalWalker.CollapsedHasRequired | crates/chasm-faker/src/schema_walker.rs:1115-1193 | The value of a collapsed schema holds exactly the keys that the schema or a merged branch requires and that are required again above every merged branch which is not an object; all that is required when there is none |
| TerminalWalker.ScalarBranchForgets | crates/chasm-faker/src/schema_walker.rs:1012-1162 | A topmost merged branch that is not an object, inline or behind a reference, makes the value null whatever the others require |
| TerminalWalker.CollapsingShrinks | crates/chasm-faker/src/schema_walker.rs:1115-1162 | Folding `allOf` leaves fewer unvisited references, or as many and no greater height |
| TerminalWalker.SelfReference | crates/chasm-faker/src/schema_walker.rs:1012-1104 | In any document, references that lead only to one another yield null, from wherever they are entered |
| TerminalScalars.NumberIsNextToZero | crates/chasm-faker/src/schema_walker.rs:1066-1092 | Wherever the walk lands on a number schema the value is the number next to zero that the bounds admit, if they admit any; bounds that cross give the positive minimum, or else the negative maximum |
| TerminalScalars.IntegerIsRounded | crates/chasm-faker/src/schema_walker.rs:1066-1092 | On an integer schema it is that number rounded half away from zero, and within the bounds if and only if a rounding of it is |
| TerminalScalars.WholeBoundsHold | crates/chasm-faker/src/schema_walker.rs:1066-1092 | Whole bounds that admit some number keep the integer between them, and next to zero |
| TerminalScalars.RoundedPastTheMinimum | crates/chasm-faker/src/schema_walker.rs:1085-1086 | A fractional bound may be rounded past: a minimum of 2.3 gives 2 |
| TerminalScalars.StringIsLongEnough | crates/chasm-faker/src/schema_walker.rs:1048-1065 | A string without pattern and format has as many letters as `minLength` asks for, up to 1048576 |
| TerminalScalars.WhereItStops | crates/chasm-faker/src/schema_walker.rs:1012-1046 | A null branch ends the walk at null, a reference met before at null and one that does not resolve at an empty object; nothing else does before a type is read |
| ErrorLogs.ErrorLog.ValidateValue | crates/chasm-engine/src/validation.rs:1170-1586 | The recursion terminates by value and composition rank and appends exactly the errors of the specification; earlier entries stay |
| ErrorLogs.ErrorLog.ValidateBranch | crates/chasm-engine/src/validation.rs:1622-1651 | Appends the errors of an `allOf` branch without the forgiven ones; earlier entries stay |
| ErrorLogs.ErrorLog.ValidateAny | crates/chasm-engine/src/validation.rs:1695-1773 | The checks of an untyped schema, enumeration failures not ending them |
| ErrorLogs.ErrorLog.ValidateObject | crates/chasm-engine/src/validation.rs:1405-1463 | Missing required properties, errors of declared ones, then the additional ones, in that order |
| ErrorLogs.ErrorLog.ValidateArray | crates/chasm-engine/src/validation.rs:1464-1511 | Length, items and uniqueness errors, in that order |
| ErrorLogs.CountMatches | crates/chasm-engine/src/validation.rs:1687-1691 | Counts the branches that resolve and accept the value when probed silently |
| Acceptance.ValidateIsExact | crates/chasm-engine/src/validation.rs:1170-1651 | Nothing is left of the errors after forgiving a set of names if and only if the value satisfies the declarative predicate under that forgiveness |
| Acceptance.ValidatorDecides | crates/chasm-engine/src/validation.rs:1170-1586 | No error is appended if and only if the value satisfies the schema: types, enumerations, bounds, required, properties, additional properties, items, uniqueness, exactly one, any, all, not, discriminators |
| Acceptance.DiscriminatedIsNamed | crates/chasm-engine/src/validation.rs:1659-1685 | The discriminated schema is what the first branch resolves to that refers to the mapped target, or to a component called like the value up to the case of letters, and there is none without such a branch |
| Acceptance.MappedIsTaken | crates/chasm-engine/src/validation.rs:1659-1685 | A mapped branch is taken if and only if no earlier branch is named by the value itself |
| Blame.ErrorsAreCauses | crates/chasm-engine/src/validation.rs:1170-1586 | For every schema and value an error is listed if and only if the value gives cause for it: its field leads to the part that fails, property by property and item by item, and its code names the keyword |
| Blame.ObjectErrorsInOrder | crates/chasm-engine/src/validation.rs:1405-1463 | The errors of an object are those of missing properties, then of declared ones, then of the others |
| Blame.ReferenceLeads | crates/chasm-engine/src/validation.rs:946-959 | A schema is what a reference resolves to if and only if it is the component, no reference itself, that is called what follows the prefix |
| Acceptance.MatchesCounts | crates/chasm-engine/src/validation.rs:1512-1553 | The number of matching branches is the number of branches that accept |
| Schemas.DescentIsShort | crates/chasm-engine/src/validation.rs:946-959 | Without a cycle of compositions no schema is applied to the same value inside itself, and descents are bounded |
| Compositions.FoundedExactly | crates/chasm-engine/src/validation.rs:1170-1651 | The rank validation terminates by exists if and only if there is no set of components in which each applies another of the set through `allOf`, `anyOf`, `oneOf` and `not` alone |
| Probe.SameCodesEverywhere | crates/chasm-engine/src/validation.rs:1687-1691 | The sequence of error codes, and so whether there is any error, does not depend on location or field prefix |
| Probe.Relocates | crates/chasm-engine/src/validation.rs:1170-1651 | Errors at a prefixed field are those at the bare field, each moved, through the filter that inspects field suffixes included |
| Forgiveness.ForgivingMore | crates/chasm-engine/src/validation.rs:1405-1463 | Forgiving more names lets through exactly the values in which, somewhere down the walk through properties, additional properties, items, discriminated branches and nested `allOf`s, a closed object holds an undeclared key those names mask |
| Forgiveness.AllOfIsExact | crates/chasm-engine/src/validation.rs:1555-1651 | Every branch of an `allOf` accepts on its own if and only if the `allOf` is accepted and no object-shaped branch masks a key that only a sibling declares |
| Forgiveness.AllOfBesideIsExact | crates/chasm-engine/src/validation.rs:1588-1651 | Read as documented, each closed branch tolerating just the keys its siblings declare of the value itself, an `allOf` is accepted if and only if the code accepts it and no branch masks a key further down; asks that keys are declared by siblings as a whole exactly when by their last dotted part |
| Forgiveness.BesideIsExact | crates/chasm-engine/src/validation.rs:1617-1651 | For one branch without that proviso: accepted as documented with every undeclared key known to the siblings by its last part, if and only if accepted by the code with nothing masked further down and every undeclared key known as a whole |
| Forgiveness.WrappingMasks | crates/chasm-engine/src/validation.rs:1555-1651 | Wrapping an object schema in an `allOf` of its own loses all its errors if and only if the names of its properties mask them |
| Forgiveness.OpenIgnoresForgiveness | crates/chasm-engine/src/validation.rs:1593-1651 | Over schemas without closed objects it makes no difference which names are forgiven |
| Forgiveness.OpenAllOf | crates/chasm-engine/src/validation.rs:1593-1651 | Over schemas without closed objects `allOf` accepts exactly what every branch that resolves accepts on its own, whatever the value |
| Forgiveness.ClosedChildIsMasked | crates/chasm-engine/src/validation.rs:1593-1651 | The smallest masked key: a closed child under `allOf` lets through a property that only its parent declares |
| Documents.DocumentKeepsMeaning | crates/chasm-engine/src/loader.rs:709-829 | For a whole sound document whose components do not come back to themselves on the same value: what references mean in it under 3.1 rules is the one thing they mean in the normalised document under 3.0 rules, and every sound schema accepts there what it accepted |
| Documents.ReadingIsKept | crates/chasm-engine/src/loader.rs:735-829 | In any sound document, recursive ones included, a meaning of references solves the components under 3.1 rules if and only if it solves the normalised ones under 3.0 rules |
| Documents.RankedHasReading | crates/chasm-engine/src/validation.rs:946-959 | References have exactly one meaning, in either dialect, when no component comes back to itself on the same value |
| Documents.ComponentNormalised | crates/chasm-engine/src/loader.rs:735-751 | A component reference followed in the normalised document leads to the normal form of what it led to |
| Dialects.NormalisingKeepsMeaning | crates/chasm-engine/src/loader.rs:735-829 | For one tree and any one meaning of its references: a value is valid for a sound OpenAPI 3.1 tree if and only if it is valid under 3.0 rules for the normalised tree |
| Dialects.NullDecides | crates/chasm-engine/src/loader.rs:1167-1208 | For a node whose other keywords are sound the meaning is kept if and only if null is judged alike: beside a nullable pair null passes the other keywords exactly when no `nullable` denies it, and elsewhere a `nullable` node accepts null anyway |
| Dialects.BothBounds | crates/chasm-engine/src/loader.rs:760-789 | A node with nothing but the bounds of one side, lower or upper, keeps its meaning if and only if no 3.0 flag stands beside a plain number and a plain number implies the exclusive one beside it |
| Dialects.SideExactly | crates/chasm-engine/src/loader.rs:760-789 | On any node, whatever else it asserts, the bounds of either side judge all numbers as before if and only if that side is sound |
| Dialects.PairBesideEnum | crates/chasm-engine/src/loader.rs:1167-1208 | A nullable pair beside an enumeration keeps its meaning if and only if null is listed and the listed values of the other type are inert |
| Dialects.InertExactly | crates/chasm-engine/src/loader.rs:735-789 | Normalising leaves data unchanged if and only if it is inert: no mapping in it has a nullable pair as `type` or a numeric exclusive bound without its numeric bound |
| Dialects.ConstantIsRewritten | crates/chasm-engine/src/loader.rs:735-751 | A constant keeps its meaning if and only if its data is inert |
| Dialects.EnumerationIsRewritten | crates/chasm-engine/src/loader.rs:735-751 | An enumeration keeps its meaning if and only if every value it lists is inert |
| Dialects.DroppingItems | crates/chasm-engine/src/loader.rs:791-829 | Dropping a boolean `items` beside `prefixItems` lets through exactly the arrays that were longer than the prefix where `items` was false |
| Normaliser.Rewrite | crates/chasm-engine/src/loader.rs:735-829 | The in-place traversal applies a pass at every node |
| Normaliser.RewriteBoundPair | crates/chasm-engine/src/loader.rs:760-789 | A numeric exclusive bound becomes the bound with a flag |
| Normaliser.PassesCommute | crates/chasm-engine/src/loader.rs:735-829 | The nullable, exclusive-bound and boolean-items passes commute as maps on all documents |
| Normaliser.PassesAreIdempotent | crates/chasm-engine/src/loader.rs:735-829 | Each pass is idempotent on all documents |
| StaticMeetsValidator.StaticValuePasses | crates/chasm-faker/src/lib.rs:279-517 | The static value of a covered schema, made from the document the engine hands over (with the components beside it only when it contains a reference), draws no validation error |
| StaticMeetsValidator.WalkAccepted | crates/chasm-faker/src/lib.rs:291-401 | The walk of the text of a schema satisfies the schema, by nesting left and references being followed |
| StaticMeetsValidator.ObjectAccepted | crates/chasm-faker/src/lib.rs:472-517 | Objects: every required property present, none undeclared where that is refused |
| StaticMeetsValidator.ArrayAccepted | crates/chasm-faker/src/lib.rs:425-469 | Arrays: a length between the bounds and acceptable items |
| StaticMeetsValidator.LeafAccepted | crates/chasm-faker/src/lib.rs:374-401 | Scalars: the fixed placeholder or the first enumerated value fits |
| StaticMeetsValidator.RootHolds | crates/chasm-engine/src/engine.rs:1168-1240 | In the document handed over for a schema with references, every component reference leads to the text of its component |
| SchemaText.FieldsAt | crates/chasm-engine/src/engine.rs:1168-1188 | The first entry written for a keyword is the one read back |
| ArrayGenerator.TargetCount | crates/chasm-faker/src/generators/array.rs:138-206 | The number aimed for is the longest length where optionals are wanted, the rounded share of the safe range where a probability is set, else any length of the range; cut to the limit of default items, and never below the range |
| ArrayGenerator.MakeItems | crates/chasm-faker/src/generators/array.rs:232-280 | What each branch makes: one walk after another up to the target, or the different values of walks until the target is reached or a hundred are made; too few unique items are reported |
| ArrayGenerator.Generate | crates/chasm-faker/src/generators/array.rs:57-317 | The array made, repaired for `contains`; an error is recorded exactly in the listed cases, and without `contains` exactly when the array is reported |
| ArrayGenerator.LengthOrReport | crates/chasm-faker/src/generators/array.rs:57-317 | With consistent bounds, the length lies between them or an error is recorded, if and only if not (an empty prefix whose extras only `additionalItems` prohibits, and a positive minimum) |
| ArrayGenerator.RepairOutgrows | crates/chasm-faker/src/generators/array.rs:57-426 | With `contains`, the array outgrows `maxItems` if and only if too few elements fit and more than `maxItems` are asked for; and exactly when such an array is reported |
| ArrayGenerator.TrimUndercuts | crates/chasm-faker/src/generators/array.rs:57-426 | With `contains`, an array that was long enough ends below `minItems` if and only if trimming takes more than it can spare |
| ArrayGenerator.SafeRangeIs | crates/chasm-faker/src/generators/array.rs:81-206 | The safe range goes from the least length that schema, options and prefix ask for to the maximum, with 65536 as the limit of the schema's bounds and three items where nothing limits them |
| ArrayGenerator.PrefixedLength | crates/chasm-faker/src/generators/array.rs:232-262 | With a prefix the length is the one aimed for, within the prefix where `false` stands for the items behind it |
| Contains.ApplyContains | crates/chasm-faker/src/generators/array.rs:345-426 | The in-place repair computes the repaired array, and records an error exactly in the conflicting cases |
| Contains.ConflictMeans | crates/chasm-faker/src/generators/array.rs:345-399 | A conflict is reported if and only if fitting elements are wanted and none allowed, or nothing that keeps to a closed prefix can hold as many as are wanted |
| Contains.RepairIsExact | crates/chasm-faker/src/generators/array.rs:345-426 | The final count of fitting elements lies between the bounds; upward, the length is the larger of old length and minimum and what fitted stays in place; trimming keeps every misfit in order |
| Contains.RepairedLength | crates/chasm-faker/src/generators/array.rs:345-426 | How long the repaired array is, whatever the walk yields |
| Contains.DroppedKeeps | crates/chasm-faker/src/generators/array.rs:416-424 | Trimming removes exactly the surplus fitting elements, the first ones, and keeps all others in order |
| Contains.Fill | crates/chasm-faker/src/generators/array.rs:400-415 | Misfits are replaced in order, then the array grows |
| Contains.Trim | crates/chasm-faker/src/generators/array.rs:416-424 | Removing positions from the back leaves out the first fitting elements |
| Contains.CrossedBounds | crates/chasm-faker/src/generators/array.rs:400-425 | With the minimum above the maximum nothing is reported, and the count ends at one of the two |
| Multiples.CeilIsLeast | crates/chasm-faker/src/generators/number.rs:336-348 | For both signs the ceiling is the least multiple not below |
| Multiples.FloorIsGreatest | crates/chasm-faker/src/generators/number.rs:351-363 | For both signs the floor is the greatest multiple not above |
| Multiples.CeilMultipleI64 | crates/chasm-faker/src/generators/number.rs:336-348 | On machine integers, without overflow whenever the multiple asked for fits |
| Multiples.FloorMultipleI64 | crates/chasm-faker/src/generators/number.rs:351-363 | On machine integers, without overflow whenever the multiple asked for fits |
| Multiples.DrawMultiple | crates/chasm-faker/src/generators/number.rs:404-423 | Up to 2^61 nothing leaves the machine integers; the result is in range if and only if a multiple is, and otherwise the least multiple above the minimum |
| Multiples.DrawsAreMultiples | crates/chasm-faker/src/generators/number.rs:415-422 | Every draw is a multiple in range and every multiple in range is a draw |
| Templates.SplitTemplateParts | crates/chasm-engine/src/router.rs:500-532 | The buffer loop computes the parts; an opening brace never closed is literal |
| Templates.PrintParts | crates/chasm-engine/src/router.rs:500-532 | Printing the parts gives the template back |
| Templates.PartsWellFormed | crates/chasm-engine/src/router.rs:500-532 | Literal parts are not empty and no name holds a closing brace |
| TemplateReading.PartsAreExact | crates/chasm-engine/src/router.rs:500-532 | A template is split into the only parts that print it and in which every closed brace is a parameter up to the first brace that closes it, all other text a literal without gaps, and a brace in a literal opens it and is closed nowhere behind |
| Matching.MatchMixedSegment | crates/chasm-engine/src/router.rs:444-489 | The cursor loop computes the match, and inserts what was captured before any mismatch |
| Matching.MatchRendersBack | crates/chasm-engine/src/router.rs:444-489 | A successful match captures something non-empty for every parameter, and rendering the captures gives the segment back |
| Matching.RenderMatches | crates/chasm-engine/src/router.rs:444-489 | A rendered segment matches with the same captures if and only if no value is empty, no two captures are adjacent and no following literal occurs before the end of its value |
| Matching.NamedCaptures | crates/chasm-engine/src/router.rs:444-489 | With distinct names the parameter table holds every capture under its name |
| Matching.MatchSegment | crates/chasm-engine/src/router.rs:421-437 | The three cases, and what they insert |
| Matching.ShortcutsAgree | crates/chasm-engine/src/router.rs:421-437 | The shortcuts agree with the general matcher if and only if the segment is not a whole one with a closing brace in its name, or there is nothing to capture |
| Matching.MatchTemplate | crates/chasm-engine/src/router.rs:395-414 | The parameters of a path, filled segment by segment, none when a segment fails |
| Matching.PathMatches | crates/chasm-engine/src/router.rs:395-414 | A path matches if and only if it has as many segments as the template and each one matches |
| Router.CandidatePaths | crates/chasm-engine/src/router.rs:266-292 | The candidates of a server list, each once, in order |
| Router.RawPathCandidate | crates/chasm-engine/src/router.rs:236-292 | The raw request path is a candidate if and only if no server is declared or some server leaves it as it is |
| RouteChoice.HitExactly | crates/chasm-engine/src/router.rs:245-292 | A path is hit if and only if its template matches what the first deciding server leaves of the request path that it matches at all: the base taken off, one slash kept in front and none behind; the operation's servers decide before the path's, and these before the document's |
| RouteChoice.InsideASegment | crates/chasm-engine/src/router.rs:280-285 | A base is also taken off inside a segment |
| RouteChoice.SegmentsAreDecoded | crates/chasm-engine/src/router.rs:395-414 | A path matches if and only if its segments, each decoded, match those of the template |
| Router.TryCandidates | crates/chasm-engine/src/router.rs:128-131 | The first candidate path that matches decides the captures |
| Router.RouteRequest | crates/chasm-engine/src/router.rs:111-186 | The nested loops compute the declarative choice |
| Router.OneRoute | crates/chasm-engine/src/router.rs:111-186 | Exactly one outcome: an operation iff some inline template matches a candidate and has the method, otherwise synthesised options, method not allowed or not found by whether any template matched and by strictness |
| RouteChoice.LiteralsCount | crates/chasm-engine/src/router.rs:535-537 | How specific a template is: the number of its segments that do not start with a brace |
| RouteChoice.RoutedToMostLiteral | crates/chasm-engine/src/router.rs:111-186 | A request is routed to the template with most such segments among those that serve it, the first one of several |
| RouteChoice.LessLiteralLoses | crates/chasm-engine/src/router.rs:111-186 | When two templates serve a request and one is literal wherever the other is and somewhere else too, the other is never chosen |
| RouteChoice.RoutedToOffer | crates/chasm-engine/src/router.rs:540-553 | The operation is the one declared for the method, HEAD falling back on GET unless strict |
| RouteChoice.RefusedExactly | crates/chasm-engine/src/router.rs:163-234 | A refused request is refused by the first path that matches and does not offer its method, as OPTIONS if it is OPTIONS and not strict; the list holds exactly the methods that path offers, in order |
| RouteChoice.MethodIgnoresCase | crates/chasm-engine/src/router.rs:111-186 | The case of the method makes no difference |
| Router.AllowHeader | crates/chasm-engine/src/router.rs:205-234 | The declared methods, sorted and without duplicates |
| Router.AllowedAreEffective | crates/chasm-engine/src/router.rs:205-234 | A method is allowed if and only if it has an operation, HEAD through GET included unless strict |
| Router.AllowIsExact | crates/chasm-engine/src/router.rs:111-234 | When one template matches and overrides no servers, the sorted duplicate-free Allow list holds exactly the methods that route to an operation |
| RouteLabels.MatchRouteTemplate | crates/chasm-server/src/main.rs:2012-2033 | The running-best loop finds the earliest of the most literal matching templates |
| RouteChoice.LessLiteralIsNoLabel | crates/chasm-server/src/main.rs:2012-2033 | Nor is a request labelled with a template that is less literal than another one matching |
| RouteLabels.TemplateMatchesPath | crates/chasm-server/src/main.rs:2045-2073 | Segment by segment, whole parameters binding non-empty segments |
| RouteLabels.UnlabelledIsNotFound | crates/chasm-server/src/main.rs:2012-2073 | On plain specifications and paths without percent signs, the label is the sentinel if and only if the router finds nothing |
| RouteLabels.LabelIsRoute | crates/chasm-server/src/main.rs:2012-2073 | When the labelled template has the method, the router returns that same template |
| Negotiation.Negotiate | crates/chasm-engine/src/engine.rs:888-940 | Parsing, filtering, stable ranking and the loop over ranges compute the negotiation function |
| Negotiation.ParseAcceptEntry | crates/chasm-engine/src/engine.rs:963-979 | The media range and the last quality that parses |
| Negotiation.SelectionIsOptimal | crates/chasm-engine/src/engine.rs:888-940 | A selected key is that of the best range matching anything: highest quality, ties by header order |
| Negotiation.NotAcceptableExactly | crates/chasm-engine/src/engine.rs:888-940 | Not acceptable if and only if a header is present, a plausible key is declared, and no range of positive quality matches one |
| Negotiation.PickIsFirst | crates/chasm-engine/src/engine.rs:917-930 | The key taken for a range is the first declared one that matches, if and only if no key written as the wildcard range itself comes after one that falls under it |
| Negotiation.PickMatches | crates/chasm-engine/src/engine.rs:917-930 | A key is taken if and only if one matches, and the one taken matches |
| AcceptHeader.PickTakes | crates/chasm-engine/src/engine.rs:917-930 | Read off the declared keys: a full wildcard takes the first key shaped like a media type, any other range the first one written as it is, and a wildcard of a type, failing that, the first one of the type |
| AcceptHeader.RangesAre | crates/chasm-engine/src/engine.rs:903-908 | What is ranked is what the entries of the header ask for: the trimmed range without its parameters, with the last quality that parses, one without any, and never zero |
| AcceptHeader.PlausibleIs | crates/chasm-engine/src/engine.rs:830-836 | A key is shaped like a media type if and only if its first slash parts two texts that are not blank, parameters and white space around it aside |
| AcceptHeader.Otherwise | crates/chasm-engine/src/engine.rs:888-940 | Without a header the first proper key is selected, without a proper key JSON, and a refusal lists the proper keys in order |
| Negotiation.SelectedIsFound | crates/chasm-engine/src/engine.rs:946-960 | Whatever is selected among declared plausible keys is found by the lookup, under that very key |
| Registries.RegistrationIsSafe | crates/chasm-server/src/main.rs:526-543 | Every step of double-checked registration keeps the lock discipline and one counter per label, fixed once registered |
| Registries.NeverStuck | crates/chasm-server/src/main.rs:526-543 | As long as a call has not left the lock, some call can step |
| Counters.NothingIsLost | crates/chasm-server/src/main.rs:526-543 | In every interleaving a label reports the increments committed so far, and at quiescence the calls made with it |
| Counters.RunGrows | crates/chasm-server/src/main.rs:526-543 | A label keeps its counter and what it reports never falls |
| Counters.SomeoneMoves | crates/chasm-server/src/main.rs:526-543 | As long as a call is not over, some call can step |
| Histograms.HistogramIsExact | crates/chasm-server/src/main.rs:560-595 | At quiescence each bucket counts exactly the observations within its bound, buckets rise and stay within the count, and the sum is that of all durations, each once, in the order the swaps succeeded |
| Histograms.NothingIsLost | crates/chasm-server/src/main.rs:560-595 | In every reachable state buckets and count are exact for the calls that got past them, and the sum is that of the committed durations |
| Snapshots.BucketsByMilliseconds | crates/chasm-server/src/main.rs:397 | At quiescence the buckets count the calls that took at most 5, 10, 50, 100, 500, 1000 and 5000 milliseconds |
| Snapshots.BucketExceedsCount | crates/chasm-server/src/main.rs:560-595 | In every reachable state a bucket exceeds the count if and only if more calls have passed the bucket within its bound and not yet the count than counted calls lie above the bound |
| Snapshots.BucketRunsAhead | crates/chasm-server/src/main.rs:560-595 | Such states are reached: a run to a bucket of one and a count of zero |
| Histograms.SwapsIsSound | crates/chasm-server/src/main.rs:581-594 | A swap succeeds only on the sum the call has added to, so none is lost |
| Gauge.GaugeIsLive | crates/chasm-server/src/main.rs:552-557 | The gauge is the number of live guards |
| Randoms.Random.SetError | crates/chasm-faker/src/random.rs:83-87 | Only the first error is kept |
| Randoms.Random.Int | crates/chasm-faker/src/random.rs:100-105 | An arbitrary value of the range, or its lower end when the range is empty |

## Left out

What the repository does and this model does not:

- Axum handlers, TLS, CORS, timeouts, compression, file watching, command line, WASM bindings and problem documents: plumbing without a hard property.
- Remote references, their fetching and guarding; parsing of YAML and JSON; the textual clamp of integer bounds, float-bound coercion, and the passes that inline path items and headers.
- The human-readable messages of validation errors and generator faults; the text of the exposition format.
- Floating point: numbers are reals, `multipleOf` on floats keeps the tolerances of the code without its rounding, qualities are finite, and what adding does to the bits of the histogram sum is a parameter. Durations are not NaN.
- Machine widths of counters and indices, except in `Multiples`, `Gauge`, the quantifier bounds and the integer checks of the validator: 2^64 calls are out of reach.
- Text is ASCII where the code works on bytes; percent-decoding is a parameter; white space in `Trim` is the ASCII kind.
- The regular-expression library and the pattern check are parameters or arbitrary; so is the format check in `Validator`, for which `Formats` has what the source enforces, digits being the ASCII ones and the parsing of IPv6 addresses a parameter.
- The dynamic walk over schemas, object key heuristics and hints for fake data: item and `contains` walks are arbitrary values, which covers whatever they produce.
- The rest of the pattern path around the generator: trials with a library generator, length windows and padding.
- Server URLs: their expansion is left out, servers are given by base path. Headers are looked up elsewhere; the `Accept` value is given.
- The resolver cache and the list of visited references inside one lookup, which callers always start empty.
- Mapping keys in YAML that are not strings.
- Fractional `multipleOf` in the integer generator: only the path for whole multiples is modelled.

Deliberate limits of what is stated:

- PatternGenerator.Generate: asks that no choice reaches a parenthesis or bracket that opens at the very end of the text, where the code slices out of range and panics; `PatternText.SafeExactly` says which texts those are and `RegexSoundness.CoveredIsSafe` that covered expressions are not among them.
- RegexSoundness.GeneratedMatches: does not cover groups that are not read whole, which by `RegexScan.GroupReadExactly` are those the scanners cut elsewhere (a group that ends the text may be cut right and still not be read whole, by `RegexScan.GroupOf`); classes that `RegexScan.ClassIsExact` shows to be drawn from unsoundly; an escaped dash that is not last in a class, for which `RegexScan.EscapedDash` has the condition unless an escaped backslash and more follow; an escaped closing bracket, and `&`, `~`, `^`, an opening bracket or an inner dash unescaped in a class.
- Acceptance.ValidatorDecides: asks that components have a rank, which by `Compositions.FoundedExactly` means that none comes back to itself on the same value through compositions. Nothing is said of the others: whether the code returns there depends on which branches it looks at before it stops.
- Dialects.NormalisingKeepsMeaning: asks that at every node null is judged alike (`Dialects.NullDecides` shows that this is needed), that data under `enum` and `const` is inert (`Dialects.ConstantIsRewritten`, `Dialects.EnumerationIsRewritten`), that the bounds of each side are sound (`Dialects.SideExactly` shows that this is needed), and that properties hold schemas. Boolean `items` are dropped by a pass of its own (`Dialects.DroppingItems`). Annotations are not modelled, nor are the assertions `multipleOf`, `pattern`, `format`, `minProperties`, `maxProperties`, `dependentRequired`, `contains` with its bounds, `patternProperties`, `propertyNames`, `dependentSchemas`, `unevaluatedItems`, `unevaluatedProperties` and `if`/`then`/`else`, none of which the passes touch at the node itself. Keywords beside a reference, and `const` and `prefixItems`, count under both rules.
- Documents.DocumentKeepsMeaning: asks for sound components and schemas and for a rank of the components, without which `Documents.ReadingIsKept` still relates the meanings of both documents; references that lead to no component mean the same on both sides.
- Forgiveness.AllOfBesideIsExact: asks that the undeclared keys of closed branches are declared by siblings as a whole exactly when by their last dotted part; where these differ `Forgiveness.BesideIsExact` says what each reading accepts.
- TerminalWalker.CollapsedHasRequired: asks that the folded schema is an object schema with nothing left to follow; `TerminalWalker.FoldKeepsRequired` does not, and `TerminalWalker.ScalarBranchForgets` covers folds that end in no object.
- StaticMeetsValidator.StaticValuePasses: covers plain scalars, enumerations, objects, arrays, `anyOf` and references not followed inside themselves; schemas carry no example or default, and no format, because the static placeholder for times does not meet the validator (`Formats.PlaceholdersPass` says that all others do).
- RefResolver.IndexFollowsExactly: asks that no object on the path has a key beside what it unescapes to; with both, the other key is followed.
- RefResolver.IndexedAnchorsResolve: says nothing of a fragment that is no indexed anchor; `BaseUris.AnchorLeads` does.
- BaseUris.NameLeads: asks that no key on the path holds an escape sequence, as `RefResolver.IndexFollowsExactly` explains; `BaseUris.AnchorLeads` does too.
- StaticCollapse.CollapsedHasKeys: asks that the branches are objects and that the collapsed schema goes by its type, with nothing written or composed in its place.
- Formats.PlaceholdersPass: asks that the parser of IPv6 addresses takes the placeholder.
- ArrayGenerator.Generate: asks for a probability between zero and one when one is set; errors recorded by the walks of items are not modelled.
- Contains.RepairIsExact: asks that walks of the `contains` schema yield values that satisfy it and that the bounds are not crossed; `Contains.CrossedBounds` covers crossed bounds.
- Multiples.DrawMultiple: asks for bounds and multiple up to 2^61, where differences stay in range.
- RouteLabels.UnlabelledIsNotFound: the sentinel is told apart from any template; asks for no servers, inline paths, literal or whole segments and no percent sign in the path.
- Router.AllowIsExact: asks that a single template matches, whatever the method.
- Negotiation.SelectionIsOptimal: qualities parse through a parameter.
- Histograms.HistogramIsExact: speaks of quiescence; `Snapshots.BucketExceedsCount` says exactly when a bucket exceeds the count while calls are running, and `Snapshots.BucketRunsAhead` that this happens.
