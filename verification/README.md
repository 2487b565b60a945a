# react-native-unistyles core, modelled in Dafny

This project models the native core of react-native-unistyles. The core has two parts.

- **The style registry.** For each scripting runtime it keeps:
  - the theme state: registered themes, the current theme, breakpoints and the colour cache;
  - the style sheets and the style units (unistyles) inside them;
  - the link table, which records which unistyles each render-node family uses.
  From a set of changed dependency kinds, the registry works out which nodes and which style sheets must be recomputed. It queues per-node prop updates in the traffic controller.
- **The shadow-tree patcher.** It drains that queue. It computes the affected ancestors of every updated node and clones only the nodes on those paths. Everything else is shared. The new tree is committed in one transaction.

Around the core, the project also models:

- the JSI helpers the core relies on;
- the `mq` media-query builders and the visibility rule of `useMedia`;
- the Babel rewrite of "exotic" component imports.

Modules:

| file | module | models |
|---|---|---|
| `wrappers.dfy` | `Wrappers`, `Js`, `Styles` | `Option`/`Result`/`Outcome`, JS values, style sheets, unistyles and dependency kinds |
| `helpers.dfy` | `Helpers` | `cxx/common/Helpers.h` |
| `state.dfy` | `State` | `cxx/core/UnistylesState.cpp`, as the class `UnistylesState` |
| `registry.dfy` | `Registry` | `cxx/core/UnistylesRegistry.cpp`, as the class `UnistylesRegistry` |
| `traffic.dfy` | `Traffic` | the pending-update queue (`TrafficController`) |
| `shadow_tree.dfy` | `ShadowTree` | affected-node search and copy-on-write cloning (`cxx/shadowTree/ShadowTreeManager.cpp`) |
| `patcher.dfy` | `Patcher` | the commit of one transaction per drained batch |
| `mq.dfy` | `MediaQuery` | `src/mq.ts`, plus a reader of the text it builds |
| `use_media.dfy` | `UseMedia` | `src/hooks/useMedia.native.ts` |
| `exotic.dfy` | `Exotic` | `plugin/exotic.js` |

Each C++ class whose fields change in place is a Dafny `class`. Each method is proved against a specification function over its state. Pure computations are functions, and their properties are lemmas. Identity is modelled as follows:

- Runtimes and node families are opaque `nat` identities.
- Shared pointers to unistyles are compared by value.

## Model

| member | source | states |
|---|---|---|
| Helpers.AssertThat | cxx/common/Helpers.h:15-19 | fails exactly when the condition is false, carrying the given message |
| Helpers.VecContainsKeys | cxx/common/Helpers.h:33-46 | true iff the vector is non-empty and holds every key (the early exit never fires on an empty vector) |
| Helpers.ContainsNoKeys | cxx/common/Helpers.h:33-46 | with no keys the answer is whether the vector is non-empty |
| Helpers.ContainsKeysIgnoresOrder | cxx/common/Helpers.h:33-46 | the answer depends only on the set of elements of the vector, not their order or repetition |
| Helpers.VariantText | cxx/common/Helpers.h:112-124 | a variant value yields text exactly when it is a boolean or a string |
| Helpers.VariantsToPairs | cxx/common/Helpers.h:108-128 | the loop returns the pairs of the specification function `VariantPairs` |
| Helpers.VariantPairsAppend | cxx/common/Helpers.h:108-128 | the conversion distributes over concatenation of property lists |
| Helpers.VariantPairsMembership | cxx/common/Helpers.h:108-128 | a pair is produced iff some property has that name and a boolean or string value with that text |
| Helpers.Lookup | cxx/common/Helpers.h:134 | a property is found iff the object has one with that name, and the value found is that property's |
| Helpers.SetProperty | cxx/common/Helpers.h:134 | `setProperty` adds a new name at the end, and leaves every name in its position when the name exists |
| Helpers.SetPropertyLookup | cxx/common/Helpers.h:134 | after `setProperty` the name holds the new value and every other name keeps its value |
| Helpers.SetPropertyDistinct | cxx/common/Helpers.h:134 | `setProperty` keeps the object's names distinct |
| Helpers.LastValue | cxx/common/Helpers.h:133-135 | the value of the last pair with that name, none iff no pair has the name |
| Helpers.PairsToProps | cxx/common/Helpers.h:130-138 | the object has distinct names, and each name holds the string of the last pair that set it; names no pair sets are absent |
| Helpers.PairsToPropsDistinct | cxx/common/Helpers.h:130-138 | with distinct names, one string property per pair, in order |
| Helpers.RepeatedNameKeepsLast | cxx/common/Helpers.h:133-135 | `[("size","small"),("size","large")]` becomes `{size: "large"}` and reads back as `[("size","large")]` |
| Helpers.StringPropsReadBack | cxx/common/Helpers.h:108-127 | an object of one string property per pair, in order, reads back as the pairs |
| Helpers.VariantPairsRoundTrip | cxx/common/Helpers.h:108-138 | pairs with distinct names that are not array indices turn into a variants object and back into the same pairs |
| Helpers.ArgumentAsDynamic | cxx/common/Helpers.h:159-200 | an argument is dropped iff it is a symbol, a bigint, a function or an array buffer |
| Helpers.ParseDynamicFunctionArguments | cxx/common/Helpers.h:150-204 | the loop returns the arguments kept by `ParsedArguments`, in order |
| Helpers.ParsedArgumentsKeepsAll | cxx/common/Helpers.h:150-204 | nothing is dropped iff every argument is convertible |
| Helpers.ParsedArgumentsPositional | cxx/common/Helpers.h:150-204 | when every argument converts, the i-th result is the i-th argument's conversion |
| Helpers.DependenciesToJSIArray | cxx/common/Helpers.h:218-226 | a fresh array of the same length holding each dependency's integer code at its index |
| Helpers.DependencyCodesRoundTrip | cxx/common/Helpers.h:218-226 | decoding the produced codes gives back the dependency list |
| State.UnistylesState.HasAdaptiveThemes | cxx/core/UnistylesState.cpp:6-12 | true iff adaptive themes are preferred and both "light" and "dark" are registered |
| State.UnistylesState.SetTheme | cxx/core/UnistylesState.cpp:14-20 | fails iff the name is not registered, leaving the current theme; otherwise the current theme becomes the name; the state invariant is kept |
| State.UnistylesState.GetCurrentJSTheme | cxx/core/UnistylesState.cpp:26-45 | error without themes and user config; empty object without themes; error with no current theme or an unregistered one; otherwise the stored theme object |
| State.UnistylesState.GetJSThemeByName | cxx/core/UnistylesState.cpp:47-53 | error for an unknown name; otherwise the stored object for that name |
| State.UnistylesState.ComputeCurrentBreakpoint | cxx/core/UnistylesState.cpp:55-64 | no breakpoints leaves the current breakpoint; otherwise it is the one chosen for the screen width |
| State.UnistylesState.HasTheme | cxx/core/UnistylesState.cpp:66-68 | true iff the name is registered, which under the invariant means it has a stored theme |
| State.UnistylesState.GetPrefersAdaptiveThemes | cxx/core/UnistylesState.cpp:90-92 | true iff the preference is set and true |
| State.UnistylesState.ParseColor | cxx/core/UnistylesState.cpp:102-120 | a non-string gives 0 with the cache unchanged; a cached string gives its cached value; otherwise the processed colour is cached and returned |
| State.AsObject | cxx/core/UnistylesState.cpp:44 | a value converts to an object exactly when it is one |
| Registry.UnistylesRegistry.RegisterTheme | cxx/core/UnistylesRegistry.cpp:9-14 | fails without a state; the name is appended, and the first theme under a name is kept; the state invariant is kept; its frame is the theme map and the name list of the runtime's state, so every other field, and (under `Valid`) every other runtime's state, stays |
| Registry.UnistylesRegistry.RegisterBreakpoints | cxx/core/UnistylesRegistry.cpp:16-20 | fails without a state; stores the breakpoints; its frame is that one field of the runtime's state, so every other field, and (under `Valid`, distinct runtimes hold distinct states) every other runtime's state, stays |
| Registry.UnistylesRegistry.SetPrefersAdaptiveThemes | cxx/core/UnistylesRegistry.cpp:22-26 | fails without a state; stores the preference; its frame is that one field of the runtime's state, so every other field, and (under `Valid`, distinct runtimes hold distinct states) every other runtime's state, stays |
| Registry.UnistylesRegistry.SetInitialThemeName | cxx/core/UnistylesRegistry.cpp:28-32 | fails without a state; stores the initial theme name; its frame is that one field of the runtime's state, so every other field, and (under `Valid`, distinct runtimes hold distinct states) every other runtime's state, stays |
| Registry.UnistylesRegistry.GetState | cxx/core/UnistylesRegistry.cpp:34-40 | found iff the runtime has a state, else the configuration error |
| Registry.UnistylesRegistry.CreateState | cxx/core/UnistylesRegistry.cpp:42-56 | the runtime gets a fresh empty state that satisfies the invariant, replacing an old one; other runtimes keep theirs; `Valid` (distinct runtimes hold distinct state objects) is kept |
| Registry.UnistylesRegistry.UpdateTheme | cxx/core/UnistylesRegistry.cpp:58-69 | fails iff no state, an unknown theme or a non-object result; on failure the themes are unchanged; on success only that theme is replaced by the callback's result; its frame is the theme map of the runtime's state, so every other field, and (under `Valid`) every other runtime's state, stays |
| Registry.UnistylesRegistry.LinkShadowNodeWithUnistyle | cxx/core/UnistylesRegistry.cpp:71-87 | the family's links gain the data at the end; the family's queued update becomes the parse of the data |
| Registry.UnistylesRegistry.RemoveDuplicatedUnistyles | cxx/core/UnistylesRegistry.cpp:89-108 | keeps exactly the candidates not already linked to the family, in order; the family's entry is created if missing |
| Registry.NotLinked | cxx/core/UnistylesRegistry.cpp:92-107 | removing never lengthens the list |
| Registry.NotLinkedMembership | cxx/core/UnistylesRegistry.cpp:92-107 | a unistyle is kept iff it is a candidate and not linked |
| Registry.NotLinkedAppend | cxx/core/UnistylesRegistry.cpp:92-107 | the filter distributes over concatenation, so order is kept |
| Registry.NotLinkedIdempotent | cxx/core/UnistylesRegistry.cpp:92-107 | removing duplicates twice is the same as once |
| Registry.LinkedCandidatesAreDropped | cxx/core/UnistylesRegistry.cpp:89-108 | once every candidate is linked, nothing is kept, whatever else is linked |
| Registry.UnistylesRegistry.UnlinkShadowNodeWithUnistyles | cxx/core/UnistylesRegistry.cpp:110-119 | the family leaves the link table and the queue; an emptied runtime entry is removed; other runtimes are untouched |
| Registry.UnistylesRegistry.AddStyleSheet | cxx/core/UnistylesRegistry.cpp:121-125 | stores and returns a sheet with the given id and kind under that id, replacing any old one; the id-keying invariant is kept |
| Registry.UnistylesRegistry.BuildDependencyMap | cxx/core/UnistylesRegistry.cpp:127-156 | a family is in the map iff one of its links depends on a changed kind, and then it maps to all of its links |
| Registry.CopyLinks | cxx/core/UnistylesRegistry.cpp:147-149 | a family with no entry ends up with all the given links, in order (none leaves the map unchanged) |
| Registry.LastMatch | cxx/core/UnistylesRegistry.cpp:167-173 | finds a link iff the unistyle is linked, and the one found is the last such link |
| Registry.UnistylesRegistry.ShadowLeafUpdateFromUnistyle | cxx/core/UnistylesRegistry.cpp:160-176 | each family linked to the unistyle gets the parse of its last matching link queued; other queued updates stay |
| Registry.UnistylesRegistry.GetStyleSheetsToRefresh | cxx/core/UnistylesRegistry.cpp:178-222 | empty changes give nothing; every result is a sheet of the runtime that needs a refresh; every sheet that needs one is included, once |
| Registry.UnistylesRegistry.GetUnistyleById | cxx/core/UnistylesRegistry.cpp:224-238 | none iff no sheet of the runtime holds a unistyle with that id; a result has that id and belongs to a sheet |
| Registry.UnistylesRegistry.SetScopedTheme | cxx/core/UnistylesRegistry.cpp:244-246 | the scoped theme becomes the given one |
| Traffic.TrafficController.SetUpdates | cxx/core/UnistylesRegistry.cpp:85 | the batch is merged into the queue: batch keys take the batch's values, other keys keep theirs |
| Traffic.TrafficController.GetUpdates | cxx/shadowTree/ShadowTreeManager.cpp:13 | returns everything queued and empties the queue |
| Traffic.TrafficController.RemoveShadowNode | cxx/core/UnistylesRegistry.cpp:113 | only that family's queued update is dropped |
| Traffic.CoalescingKeepsLastWrite | cxx/core/UnistylesRegistry.cpp:175 | two `SetUpdates` calls for one family leave only the later value in the queue, and the next drain returns the earlier queue with that one value |
| ShadowTree.FindAffectedNodes | cxx/shadowTree/ShadowTreeManager.cpp:65-81 | the loop returns `Affected`; a family is affected iff it is an ancestor on the path to an updated family, with the child index taken on that path |
| ShadowTree.AffectedOnChains | cxx/shadowTree/ShadowTreeManager.cpp:65-81 | the same characterisation, stated for the specification function |
| ShadowTree.AbsentFamilyContributesNothing | cxx/shadowTree/ShadowTreeManager.cpp:68-78 | an update for a family that is not in the tree marks nothing as affected |
| ShadowTree.AffectedInRange | cxx/shadowTree/ShadowTreeManager.cpp:142-147 | in a tree with distinct families, every recorded child index is in range for its node |
| ShadowTree.ComputeUpdatedProps | cxx/shadowTree/ShadowTreeManager.cpp:83-110 | placeholder iff the node has no update; a null update clones with an empty object; otherwise clones with the update |
| ShadowTree.CloneShadowTree | cxx/shadowTree/ShadowTreeManager.cpp:133-161 | the recursion returns `Clone`: same family, state and child count; children off the affected set are shared; props updated as above |
| ShadowTree.CloneKeepsShape | cxx/shadowTree/ShadowTreeManager.cpp:142-160 | every path of the old tree exists in the clone, with the same family, state and child count |
| ShadowTree.CloneOnPath | cxx/shadowTree/ShadowTreeManager.cpp:142-147 | a node reached only through affected indices is itself cloned |
| ShadowTree.CloneSharesOffPath | cxx/shadowTree/ShadowTreeManager.cpp:150-152 | a node reached through an unaffected index comes back equal to the original (sharing rendered as value equality) |
| ShadowTree.UpdateReachesTarget | cxx/shadowTree/ShadowTreeManager.cpp:23-31 | after the transaction the updated node is at the same path with new props and the same family, state and child count |
| ShadowTree.EmptyBatchIsIdentity | cxx/shadowTree/ShadowTreeManager.cpp:23-31 | the transaction with no updates gives back the same tree |
| Patcher.HostShadowTree.Commit | cxx/shadowTree/ShadowTreeManager.cpp:37 | the root becomes the transaction applied to the old root; the commit options are recorded |
| Patcher.UpdateShadowTree | cxx/shadowTree/ShadowTreeManager.cpp:9-46 | the queue is drained; an empty batch commits nothing; otherwise only the first tree commits the transaction once, with options (false, true) |
| MediaQuery.GetMQValue | src/mq.ts:24-36 | a number is kept; null is 0; a breakpoint name gives its width, or 0 if unknown |
| MediaQuery.NatText | src/mq.ts:44 | decimal text of a natural number: non-empty and all digits |
| MediaQuery.NatTextRoundTrip | src/mq.ts:44 | reading the decimal text back gives the number |
| MediaQuery.NumTextRoundTrip | src/mq.ts:44 | reading the text of any bound (negative, positive or Infinity) gives the bound |
| MediaQuery.OnlyWidth | src/mq.ts:44 | the `:w[min, max]` segment of the width bounds, with defaults 0 and Infinity |
| MediaQuery.OnlyHeight | src/mq.ts:45 | the `:h[min, max]` segment of the height bounds |
| MediaQuery.WidthAndHeight | src/mq.ts:47-52 | the width segment followed by the height segment |
| MediaQuery.HeightAndWidth | src/mq.ts:53-58 | written width first, so it equals the width-then-height query |
| MediaQuery.SegmentRoundTrip | src/mq.ts:44-45 | reading a built segment gives back its bounds and the rest of the text |
| MediaQuery.OnlyWidthRoundTrip | src/mq.ts:44 | the width-only query reads back as exactly its two width bounds |
| MediaQuery.OnlyHeightRoundTrip | src/mq.ts:45 | the height-only query reads back as exactly its two height bounds |
| MediaQuery.WidthAndHeightRoundTrip | src/mq.ts:47-58 | the combined query reads back as all four bounds |
| MediaQuery.OnlyWidthDefaults | src/mq.ts:44 | with no arguments the query is `:w[0, Infinity]` |
| MediaQuery.OnlyHeightDefaults | src/mq.ts:45 | with no arguments the query is `:h[0, Infinity]` |
| UseMedia.ComputeIsVisible | src/hooks/useMedia.native.ts:6-42 | not visible for an unreadable or invalid query; otherwise visible iff each present bound holds for the screen |
| UseMedia.VisibilityAfterChange | src/hooks/useMedia.native.ts:50-54 | recomputed only when breakpoints changed, otherwise kept |
| UseMedia.DroppingBoundKeepsVisible | src/hooks/useMedia.native.ts:25-41 | removing any one bound of a visible query keeps it visible |
| UseMedia.OnlyWidthVisibility | src/hooks/useMedia.native.ts:6-42 | a width-only query is visible iff min <= max and the width lies between them |
| UseMedia.DefaultWidthAlwaysVisible | src/hooks/useMedia.native.ts:6-42 | the default width query is visible on every screen |
| Exotic.FirstMatch | plugin/exotic.js:10-17 | the rule applied is the first that matches type, name and path, and none means no rule matches |
| Exotic.TextBefore | plugin/exotic.js:23 | the prefix of the file name before the first occurrence of the package name, or the whole name |
| Exotic.NewSource | plugin/exotic.js:22-25 | the native components module of the target, rooted at the package location when local |
| Exotic.Remove | plugin/exotic.js:38 | keeps exactly the other specifiers |
| Exotic.HandleSpecifier | plugin/exotic.js:9-48 | the callback for one specifier applies exactly the rewrite of the first matching rule, or nothing when no rule matches |
| Exotic.HandleExoticImport | plugin/exotic.js:1-50 | the path ends up as the as-written rewrite `AsWritten` of its declaration |
| Exotic.HandleExoticImportCorrected | plugin/exotic.js:1-50 | the path ends up as the corrected rewrite `Corrected` of its declaration |
| Exotic.NonValueImportUntouched | plugin/exotic.js:5-7 | an import whose kind is not "value" is left unchanged |
| Exotic.StepUnmatched | plugin/exotic.js:10-17 | a specifier no rule matches leaves the path unchanged |
| Exotic.StepDefault | plugin/exotic.js:19-28 | a default specifier with a first matching rule replaces the whole node by a default import of that local name from the new module, dropping every other specifier, and inserts nothing |
| Exotic.StepNamed | plugin/exotic.js:29-44 | a named specifier with a first matching rule: the node keeps exactly the other specifiers of the filtered list, with the new import inserted before; when none is left, the new import replaces the node |
| Exotic.DefaultStepReplacesDeclaration | plugin/exotic.js:9-28 | as written, in any declaration, the step of a matched default specifier leaves the path holding only the redirected default import |
| Exotic.DefaultImportDropsNamedSibling | plugin/exotic.js:19-28 | `import D, { X } from 'lib'` with a rule for the default import only ends with `X` imported from nowhere |
| Exotic.DefaultImportRedirected | plugin/exotic.js:19-28 | a matched default import is replaced by a default import with the same local name from the new module |
| Exotic.NamedImportSplitOff | plugin/exotic.js:30-44 | a matched named specifier beside an unmatched one is imported from the new module, inserted before, and the declaration keeps the other |
| Exotic.AsWrittenRestoresMatchedSpecifier | plugin/exotic.js:38 | as written, with two matched named specifiers the original declaration still imports the first |
| Exotic.CorrectedStepDropsMatched | plugin/exotic.js:38 | corrected, one more processed specifier keeps only unmatched original specifiers in the original declaration |
| Exotic.CorrectedDropsMatched | plugin/exotic.js:38 | corrected, after each step the original declaration holds only original specifiers, and none that a rule matched |
| Exotic.CorrectedLeavesNoMatchedImport | plugin/exotic.js:9-49 | corrected, nothing a rule matched is still imported from the original module |

## Left out

- Helpers.h functions that only marshal JSI values are not modelled: `enumerateJSIObject`, `defineHiddenProperty`, `mergeJSIObjects`, `iterateJSIArray`, `isPlatformColor`, `variantsToValue` and `functionArgumentsToArray`. The object enumeration they rely on is modelled as an ordered list of properties.
- Locks: the traffic controller's `withLock` and `resumeUnistylesTraffic` are left out. Each operation is modelled as one atomic step, so concurrency between the producer and the consumer is not modelled.
- TrafficController: its header is not part of this model. The queue is modelled as the map its uses imply: merging batches with the later value winning, draining, and removing a family.
- The style parser is not part of this model. It appears only as a function parameter: `parseStylesToShadowTreeStyles`.
- `getBreakpointFromScreenWidth` is not part of this model and is a function parameter.
- `processColor` is not part of this model and is a function parameter.
- The update callback of `updateTheme` is a function parameter.
- Props are cloned by an uninterpreted `Cloned(props, raw)` constructor, standing for the host's `cloneProps`.
- `jsi::dynamicFromValue` is an uninterpreted constructor, applied only to objects. Null and undefined become `DNull`, so `DNull` is the only null the patcher sees.
- StyleSheet.h is not part of this model. `AddStyleSheet` stores a sheet with no unistyles, and the parser fills them in later. The raw definition object is left out.
- The `UnistyleDependency` enumeration is not part of this model. The integer codes are the model's own: 0 to 15, in the order the dependency kinds are listed.
- Pointer identity: `shared_ptr` comparison of unistyles is modelled as value equality, and runtime and family pointers are opaque identities.
- Getters that only return a field are plain field reads without contracts: `GetCurrentThemeName`, `HasInitialTheme`, `GetRegisteredThemeNames`, `GetSortedBreakpointPairs`, `GetInitialTheme`, `GetCurrentBreakpointName` and `GetScopedTheme`.
- `hasUserConfig` is only read. The code that sets it is not part of this model.
- `registerProcessColorFunction` and `registerParseBoxShadowString` only store JS functions, so they are left out. `parseBoxShadowString` calls into JS, so it is left out too.
- State.UnistylesState.ParseColor: the colour is kept as an unbounded integer. The `uint32_t` truncation on iOS and the `int` conversion on Android are not modelled.
- The registry invariant `Valid` (distinct runtimes hold distinct state objects) is kept by the constructor and `CreateState`. The setters state what stays under it rather than requiring it.
- Registry.UnistylesRegistry.ShadowLeafUpdateFromUnistyle: the pressable id is read from its argument but, as in the source, never used.
- ShadowTree.CloneShadowTree follows the pre-0.81 branch (lines 133-160). The React Native 0.81 `cloneMultiple` branch (lines 115-132) is not modelled. The `#elif` that opens the modelled branch (cxx/shadowTree/ShadowTreeManager.cpp:133) has no condition; the model takes it as the branch used before React Native 0.81.
- ShadowTree.CloneSharesOffPath: sharing a child by `shared_ptr` (cxx/shadowTree/ShadowTreeManager.cpp:150-152) is rendered as equality of datatype values. The model cannot tell a shared subtree from an equal copy.
- Breakpoint thresholds are integers. The screen width is an `int`, as in the source (cxx/core/UnistylesState.cpp:55). The source stores the thresholds as `double`s, and `RegisterBreakpoints` and `GetSortedBreakpointPairs` carry them. The model keeps them as integers (`State.Breakpoint`), so fractional thresholds are not modelled.
- Sheets of kind `Static` are never refreshed; no other behaviour is modelled for them.
- Numbers in media queries are integers or +Infinity. Floating-point breakpoints, and JavaScript's formatting of non-integers, are not modelled.
- `isUnistylesMq`, `parseMq` and `isValidMq` are not part of this model. `MediaQuery.DecodeMq` is the model's own reader of the text the builders produce. `UseMedia.IsValidMq` (min not above max on each axis) is the model's own validity check.
- UseMedia.ComputeIsVisible takes the parsed query as an argument. Reading the screen from the runtime, logging and React's state and effect hooks are left out.
- The plugin's Babel traversal, `state.opts` plumbing and AST node construction are reduced to the import path object modelled here. `importKind` is unset on the declarations the plugin builds.
- Helpers.PairsToProps: properties are kept in insertion order. JavaScript objects enumerate array-index names (such as "2" and "10") first, in ascending numeric order, and that ordering is not modelled. So Helpers.VariantPairsRoundTrip requires names that are not array indices.
- Exotic.Remove compares specifiers by value, not by object identity. The two agree because one declaration cannot bind a local name twice.
- Out of scope: HostStyle.cpp, the Android platform listener, the web-only `getWebProps`, the documentation configuration and the plugin's test file.

## Findings

| source | as written | input that shows it | evidently intended | confidence | as-written member | corrected member |
|---|---|---|---|---|---|---|
| plugin/exotic.js:38 | each matched named specifier is filtered out of the declaration's ORIGINAL specifier list, so each rewrite undoes the previous removal | `import { A, B } from 'lib'` with named rules for `A` and `B` on `lib`: the declaration ends up importing `A` from `lib` again, after the redirected imports of `A` and `B` | remove the specifier from the node's current list, so every redirected specifier leaves the original import | not executed | Exotic.AsWrittenRestoresMatchedSpecifier | Exotic.CorrectedLeavesNoMatchedImport |
