# GCC option merging, modelled in Dafny

This project models the option merger of the build resolver's GCC (Closure
Compiler) plugin, `plugins/gcc/options.js`. During dependency resolution the
`resolver` callback runs once per package. The first package seen becomes
the base package. A package whose descriptor has a `build.gcc` block has the
entries of its path keys resolved (a leading `!` exclusion marker is kept).
The block is stamped with the package's priority and put at the front of the
list of collected fragments. `adder` then does four things to the caller's
options object, in place:

- it sorts the fragments by ascending priority (a stable sort);
- it folds them in, key by key: a boolean or a single-valued key is
  overwritten, `define` entries go to an insertion-ordered defines map, and
  the other multi-value keys are concatenated (for `externs` the incoming
  entries go first);
- it pushes one `name=value` entry per recorded define;
- it sorts every path-key list.

`clear` forgets the fragments and the defines.

Modules:

- `Wrappers` (`wrappers.dfy`): the `Option` type.
- `JsText` (`js_text.dfy`): `String.prototype.split` on one character, its
  inverse `join`, and the order `Array.prototype.sort()` uses when it is given
  no comparator.
- `StableSort` (`stable_sort.dfy`): a stable sort by a caller's relation. It
  is given as a function and as a loop method, with proofs that the result is
  sorted, is a permutation, is stable, and is unique for an antisymmetric
  relation.
- `GccOptions` (`gcc_options.dfy`): the values, the two key tables and the
  specification functions for `resolver`, the reduce in `adder`, the defines
  map, the `define` expansion and the final sort.
- `GccSession` (`gcc_session.dfy`): class `Session`, holding the module state
  `basePackage`, `optionsFound` and `definesFound`, with methods `Resolver`,
  `Adder` and `Clear`. Their loops are proved against the functions of
  `GccOptions`. Class `Config` is the caller-owned object `adder` writes into.
- `GccOptionsProofs` (`gcc_options_proofs.dfy`): what the merger promises,
  stated and proved over those functions.

The calls into other files are parameters of `Resolver`, as the arrow
functions of a `Collaborators` value:

- `utils.resolveModulePath`;
- `slash(utils.flattenPath(path.resolve(projectDir, item)))`;
- `utils.getPackagePriority`.

Some behaviours of the code are easy to miss. The model follows the code:

- With equal priorities, the package collected EARLIEST wins. `resolver`
  puts each new fragment at the front (options.js line 64), and the stable
  sort keeps that order among equal priorities (line 86). So the fragment
  folded last is the one collected first (`EqualPriorityEarlierCollectedWins`).
- `adder` with no collected fragments still sorts the base object's path
  lists (`AdderAfterClear`).
- `clear` does not reset `basePackage`. The first package of the first run
  stays the base package for later runs (`Session.Clear`).
- `conformance_configs` and `output_wrapper_file` are path keys but not
  multi-value keys. A later fragment overwrites them rather than adding to
  them (`LastWriterWins`).

## Model

| member | source | states |
|---|---|---|
| GccSession.Config.constructor | plugins/gcc/options.js:85 | The caller's options object passed to `adder`, which `adder` changes in place, starts with the given entries. |
| GccSession.Session.constructor | plugins/gcc/options.js:6-8 | The state at load time: no base package, no fragments, an empty defines map. |
| GccSession.Session.Resolver | plugins/gcc/options.js:24-68 | The first package becomes the base package and is never replaced. A package without a `build.gcc` block leaves the fragments alone. Otherwise its block, with the path keys resolved, the old `priority` key removed and the collaborator's priority stamped on, is put in front of the earlier fragments. The defines are untouched. |
| GccSession.Session.RecordDefines | plugins/gcc/options.js:99-104 | The `forEach` over a `define` list leaves the map equal to `RecordAll` of the entries, and the map stays well formed. |
| GccSession.Session.MergeOneKey | plugins/gcc/options.js:92-122 | One key of a fragment changes the object as `FoldKey` says, and the defines map as `RecordAll` says when the key is `define`. |
| GccSession.Session.FoldFragment | plugins/gcc/options.js:91-123 | The `for…in` over a fragment, whatever order it enumerates the keys in, gives `FoldOptions` of the fragment. It records exactly that fragment's define entries. |
| GccSession.Session.FoldFragments | plugins/gcc/options.js:87-126 | The reduce leaves the object equal to `FoldAll` of the fragments. It records all their define entries in fold order and deletes every fragment's priority. |
| GccSession.Session.ExpandDefinesInto | plugins/gcc/options.js:129-134 | The loop over the defines map leaves `ExpandDefines` of the object, which keeps the object consistent. |
| GccSession.Session.SortPathLists | plugins/gcc/options.js:136-141 | The loop over the path keys leaves `SortPathKeys` of the object. |
| GccOptions.Merged | plugins/gcc/options.js:85-142 | What `adder` makes of the caller's object. Its properties are stated by `MergedOtherKeys`, `LastWriterWins`, `HigherPriorityWins`, `MergedPathListsSorted`, `ExternsAsIfAppended`, `MergedDefineList` and `AdderAfterClear`. |
| GccSession.Session.Adder | plugins/gcc/options.js:85-142 | The caller's object becomes `Merged` of its old value, the fragments and the defines. The fragments end up sorted with their priorities deleted. The defines map becomes `MergedDefines`, and the base package stays. |
| GccSession.Session.Clear | plugins/gcc/options.js:144-147 | No fragments and no defines are left; the base package is kept. |
| GccOptions.ResolveEntry | plugins/gcc/options.js:39-46 | An entry resolves either to the project-relative path or to a non-empty result of the module lookup; `ModuleHitWins` and `ModuleMissFallsBack` say which. |
| GccOptions.MapPath | plugins/gcc/options.js:30-47 | `mapPaths`: an exclusion stays an exclusion and the rest after its one `!` is resolved; any other entry is resolved whole. `ExclusionStrippedOnce` and `ExclusionPreserved` state the marker handling. |
| GccOptions.ResolvedOptions | plugins/gcc/options.js:49-59 | Resolution keeps the set of keys, and the resolved block fits the merge code. |
| GccOptions.ToArray | plugins/gcc/options.js:70-73 | A falsy value passes through unchanged, and a truthy one comes out as a list. |
| GccOptions.MergeKey | plugins/gcc/options.js:94-121 | The merged value still fits its key, and a key that had a value keeps one. |
| GccOptions.FoldOptions | plugins/gcc/options.js:91-123 | Every key of the result holds the fragment's value merged with the old one, or the old value when the fragment lacks the key; the result fits the merge code. |
| GccOptions.FoldOptionsStep | plugins/gcc/options.js:91-123 | Merging one more key equals `FoldKey` on the rest, so the enumeration order of the keys does not matter. |
| GccOptions.FoldAll | plugins/gcc/options.js:87-126 | The reduce keeps the object consistent. |
| GccOptions.Rank | plugins/gcc/options.js:81-83 | The value `sort` compares is the priority `resolver` stamped on the fragment. |
| GccOptions.SortedFragments | plugins/gcc/options.js:86 | `optionsFound.sort(sort)` gives a permutation of the fragments in ascending priority; `EqualPrioritiesKeepOrder` states its stability. |
| GccOptionsProofs.PrioritiesDeleted | plugins/gcc/options.js:89 | Deleting `priority` keeps every fragment's options and its place in the list. |
| GccOptions.SortedFragmentsConsistent | plugins/gcc/options.js:86 | Sorting keeps the number of fragments and their consistency. |
| GccOptions.ByPriorityIsTotalPreorder | plugins/gcc/options.js:81-83 | The priority comparator is a total preorder. |
| GccOptions.DefineEntry | plugins/gcc/options.js:100-101 | An entry is recorded exactly when it holds one `=`. The recorded name and value are `=`-free, and joined with `=` they rebuild the entry. |
| GccOptions.Lookup | plugins/gcc/options.js:102 | A recorded name reads back a value recorded with it, and a missing one reads back nothing. |
| GccOptions.Put | plugins/gcc/options.js:102 | The assigned define is in the map afterwards; the map grows by one exactly when the name is new. |
| GccOptions.LookupPut | plugins/gcc/options.js:102 | After an assignment, the name reads back the new value and every other name its old one. |
| GccOptions.NamesPut | plugins/gcc/options.js:102 | An assignment keeps the key order: an existing name stays in place, and a new one goes last. |
| GccOptions.PutWellFormed | plugins/gcc/options.js:102 | An assignment keeps every name unique and `=`-free. |
| GccOptions.RecordAll | plugins/gcc/options.js:99-104 | The `forEach` over define entries, in order. What it records is stated by `UndefinedNameKept`, `LastDefineWins`, `MalformedDefineDropped` and `RecordAllWellFormed`. |
| GccOptions.RecordAllAppend | plugins/gcc/options.js:99-104 | Recording two batches of entries is recording their concatenation. |
| GccOptions.RecordAllWellFormed | plugins/gcc/options.js:99-104 | Recording keeps the defines map well formed. |
| GccOptions.MergedDefines | plugins/gcc/options.js:86-104 | The defines map after `adder`'s reduce stays well formed; `UndefinedNameKept`, `LastDefineWins` and `MalformedDefineDropped` state what it records. |
| GccOptions.ExpandDefines | plugins/gcc/options.js:129-134 | Expanding the defines keeps the object consistent. |
| GccOptions.ExpandDefinesStep | plugins/gcc/options.js:129-134 | Each loop step pushes one `name=value` onto the current (or new, empty) `define` list. |
| GccOptions.SortedValue | plugins/gcc/options.js:137-140 | `list.sort()` turns a list into a sorted permutation of itself and leaves any other value alone. |
| GccOptions.SortKeys | plugins/gcc/options.js:136-141 | Sorting the lists under some keys keeps every key and the values under all other keys. |
| GccOptions.SortPathKeys | plugins/gcc/options.js:136-141 | The final pass keeps every key and every value outside the path keys; `SortPathKeysSorts` states the sorted path lists. |
| GccOptions.SortKeysNext | plugins/gcc/options.js:136-141 | Each step sorts the list under one more path key when it is truthy, and a truthy value there is a list. |
| StableSort.Sort | plugins/gcc/options.js:86 | The loop computes the stable insertion sort of its input. |
| StableSort.Insert | plugins/gcc/options.js:86 | Inserting an element adds exactly that element to the multiset of the sequence. |
| StableSort.InsertAt | plugins/gcc/options.js:86 | The backwards scan inserts the element where `Insert` puts it: behind the last element not greater than it. |
| StableSort.InsertionSort | plugins/gcc/options.js:86 | The result is a permutation of the input. |
| StableSort.InsertionSortSorted | plugins/gcc/options.js:86 | Under a total preorder the result is sorted. |
| StableSort.InsertionSortStable | plugins/gcc/options.js:86 | Elements equivalent to any given one keep their relative order. |
| StableSort.SortedUnique | plugins/gcc/options.js:139 | Two sorted permutations of each other are equal when the order is antisymmetric on them. |
| StableSort.InsertionSortIgnoresOrder | plugins/gcc/options.js:139 | Under an order antisymmetric on the elements, the sort of two permutations of each other is the same. |
| JsText.Split | plugins/gcc/options.js:100 | `split` gives one more part than there are separators, and no part holds a separator. |
| JsText.JoinSplit | plugins/gcc/options.js:100 | Joining the parts of a split rebuilds the string. |
| JsText.SplitJoin | plugins/gcc/options.js:100 | Splitting a join of separator-free parts gives back the parts. |
| JsText.LexLe | plugins/gcc/options.js:139 | The default `sort()` order on strings puts a prefix no later than the string it starts; `LexLeIsTotalOrder` states that it is a total order. |
| JsText.LexLeIsTotalOrder | plugins/gcc/options.js:139 | The default string order of `sort()` is total, transitive and antisymmetric. |
| GccOptionsProofs.MarkerSplitsEntry | plugins/gcc/options.js:33-36 | An entry is its exclusion marker (at most one character) followed by its name. |
| GccOptionsProofs.ExclusionStrippedOnce | plugins/gcc/options.js:33-45 | Only one `!` is removed and put back: `!rest` maps to `!` plus the resolution of `rest`. |
| GccOptionsProofs.ModuleHitWins | plugins/gcc/options.js:39-42 | A non-empty module lookup result is used, behind the marker. |
| GccOptionsProofs.ModuleMissFallsBack | plugins/gcc/options.js:44-46 | No result, or an empty one, falls back to the path resolved against the project directory. |
| GccOptionsProofs.ExclusionPreserved | plugins/gcc/options.js:30-47 | When the collaborators never return a `!` path, an entry is an exclusion after resolution exactly when it was one before. |
| GccOptionsProofs.ResolvedOptionsShape | plugins/gcc/options.js:49-59 | Keys other than path keys are unchanged. A path key becomes a list with one resolved entry per original entry, in order, and a single string becomes a one-entry list. |
| GccOptionsProofs.UnsetKeyKept | plugins/gcc/options.js:87-126 | A key no fragment sets keeps its value on the base object. |
| GccOptionsProofs.LastWriterWins | plugins/gcc/options.js:94-95 | For an overwritten key, the last fragment in fold order that sets it decides the value. |
| GccOptionsProofs.ToArrayKeepsEntries | plugins/gcc/options.js:70-73 | `toArray` never changes the entries a value stands for. |
| GccOptionsProofs.MergeKeyEntries | plugins/gcc/options.js:109-121 | Merging a list value: the incoming entries go after the current ones, or before them for `externs`. A missing or falsy current value counts as no entries. |
| GccOptionsProofs.EntriesFoldStep | plugins/gcc/options.js:105-121 | The same for one whole fragment, under any multi-value key other than `define`. |
| GccOptionsProofs.ListKeyAccumulates | plugins/gcc/options.js:116-117 | When no fragment sets the key to `false`, a list key other than `externs` ends with the base entries, then every fragment's entries in fold order (a `false` one resets the list). |
| GccOptionsProofs.ExternsPrepended | plugins/gcc/options.js:114-115 | When no fragment sets `externs` to `false`, they end with each fragment's entries in front of the earlier ones, and the base entries last. |
| GccOptionsProofs.PrependedSameEntries | plugins/gcc/options.js:114-117 | Prepending and appending collect the same multiset of entries. |
| GccOptionsProofs.ExternsFoldedEntries | plugins/gcc/options.js:113-118 | When no fragment sets `externs` to `false`, the folded `externs` hold exactly the base entries plus the contributions, as a multiset. |
| GccOptionsProofs.DefineKeyNotFolded | plugins/gcc/options.js:96-104 | When no fragment sets `define` to `false`, the reduce never changes the base object's `define` value (a `false` one overwrites it). |
| GccOptionsProofs.UndefinedNameKept | plugins/gcc/options.js:99-104 | A name that no entry defines keeps its recorded value. |
| GccOptionsProofs.LastDefineWins | plugins/gcc/options.js:97-103 | The last well-formed entry for a name decides its value. |
| GccOptionsProofs.MalformedDefineDropped | plugins/gcc/options.js:100-101 | An entry without exactly one `=` changes nothing. |
| GccOptionsProofs.MalformedDefineExamples | plugins/gcc/options.js:100-101 | `DEBUG` and `A=B=C` are not recorded. |
| GccOptionsProofs.PutFresh | plugins/gcc/options.js:102 | A new name is added at the end. |
| GccOptionsProofs.DefineEntryOfExpanded | plugins/gcc/options.js:133 | An `=`-free name and value, joined by `=`, read back as the same define. |
| GccOptionsProofs.ExpandReadsBack | plugins/gcc/options.js:129-134 | Every pushed entry of a well-formed map reads back as its define. |
| GccOptionsProofs.RecordExpanded | plugins/gcc/options.js:129-134 | Recording the expansion of a well-formed map into an empty map gives back the map, order included. |
| GccOptionsProofs.NoFlagsSorted | plugins/gcc/options.js:86 | When no fragment holds a boolean under a key, none does after the sort either (the sort only rearranges fragments). |
| GccOptionsProofs.EqualPrioritiesKeepOrder | plugins/gcc/options.js:86 | Fragments of equal priority keep their order in the collected list. |
| GccOptionsProofs.SortTwo | plugins/gcc/options.js:81-86 | Two fragments swap exactly when the first has the higher priority. |
| GccOptionsProofs.CollectionOrderIrrelevant | plugins/gcc/options.js:81-86 | With pairwise distinct priorities, any collection order of the same fragments sorts the same. |
| GccOptionsProofs.LastOfTwoWins | plugins/gcc/options.js:86-95 | When the sort puts a fragment second, a single-valued, non-path key it sets comes from it. |
| GccOptionsProofs.EqualPriorityEarlierCollectedWins | plugins/gcc/options.js:64-95 | With equal priorities, the fragment collected earlier (later in the list) wins a single-valued, non-path key. |
| GccOptionsProofs.HigherPriorityWins | plugins/gcc/options.js:81-95 | With different priorities, the higher one wins a single-valued, non-path key, in either collection order. |
| GccOptionsProofs.SortPathKeysSorts | plugins/gcc/options.js:136-141 | The final pass keeps every key. It sorts each path list into a permutation of itself and leaves every other value as it was. |
| GccOptionsProofs.SortedPathEntries | plugins/gcc/options.js:136-141 | A path key's entries after the pass are its sorted entries. |
| GccOptionsProofs.SortPathKeysOtherKey | plugins/gcc/options.js:136-141 | Non-path keys are untouched by the final pass. |
| GccOptionsProofs.ExpandDefinesOtherKey | plugins/gcc/options.js:129-134 | Building the `define` list touches no other key. |
| GccOptionsProofs.LexSortIgnoresOrder | plugins/gcc/options.js:139 | Sorting strings gives the same list for any arrangement of the same entries. |
| GccOptionsProofs.MergedOtherKeys | plugins/gcc/options.js:85-142 | Keys other than path keys and `define` hold exactly what the reduce left. |
| GccOptionsProofs.MergedPathListsSorted | plugins/gcc/options.js:136-141 | Every path list of the merged object is sorted. |
| GccOptionsProofs.ExternsAsIfAppended | plugins/gcc/options.js:105-141 | When no fragment sets `externs` to `false`, the prepending of `externs` makes no difference after the final sort: they are the sorted base entries plus the contributions. |
| GccOptionsProofs.MergedDefineList | plugins/gcc/options.js:129-134 | When some define is recorded and no fragment sets `define` to `false`, the final `define` list is the base object's own list, then one `name=value` per recorded define, in recording order. |
| GccOptionsProofs.MergedDefinesReadBack | plugins/gcc/options.js:129-134 | The recorded map stays well formed, and each pushed entry reads back as its define. |
| GccOptionsProofs.AdderAfterClear | plugins/gcc/options.js:144-147 | After `clear`, `adder` records no define and only sorts the base object's path lists. |

## Left out

- The `Promise.resolve()` that `resolver` returns: the model has no asynchrony.
- The internals of `utils.resolveModulePath`, `utils.flattenPath`, `path.resolve`, `slash` and `utils.getPackagePriority` are not part of this model. They are arbitrary functions passed in `Collaborators`.
- JavaScript enumerates integer-like property names first, in numeric order. The defines map is modelled in plain insertion order, so a define whose name looks like an array index is pushed in a different place than the engine would push it.
- Some values are excluded by the preconditions `Consistent` and `Resolvable`:
  - `true` under a multi-value key: it is itself overwritten as any boolean is, but a later fragment's `concat` would then meet it;
  - the empty string under a multi-value key, which `toArray` passes through unchanged;
  - a `define` or path key at merge time that is neither a list nor `false`;
  - a boolean path key at resolution.

  Otherwise `toArray` and `concat` would mix strings, booleans and arrays.
- Aliasing is not modelled:
  - `resolver` rewrites the package's own `build.gcc` object, and `adder` deletes `priority` from it. The model keeps the fragments as values inside the session, separate from the package descriptor.
  - The caller's object can share an array with a fragment. Lines 95 and 120 store the fragment's own array, so the in-place `list.sort()` at line 139 also reorders that fragment's list. The fragments `Session.Adder` leaves in `optionsFound` keep their lists unsorted. No later operation of the model reads those lists again before `clear`: a second `adder` is excluded by its requires.
- `Array.prototype.sort` is modelled as a stable insertion sort. The ECMAScript standard requires stability since its 2019 edition, and a stable sort's result is determined by its order.
- Strings are sequences of Unicode scalar values compared by code point. The default sort order of JavaScript compares UTF-16 code units. The two agree except for characters outside the Basic Multilingual Plane: for example, JavaScript sorts U+1F600 before U+FF61, and `LexLe` the other way round.
- The `pack` argument of `adder` is never read, and it is omitted.
- GccOptions.Put: a define named `__proto__` is recorded by the model but dropped by the engine. There, `definesFound['__proto__'] = value` runs the inherited `__proto__` setter, which ignores a string and creates no property, so the `for…in` at line 129 never pushes it.
- GccSession.Session.Adder: requires every collected fragment to carry a priority. That always holds after `resolver`, and without it `sort` would compare `undefined`.
