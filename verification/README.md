# Limn value-tree algebra in Dafny

Limn describes any runtime value as a finite tagged tree. A node is a class, collection, dictionary, enum, optional, set, struct, tuple, leaf value or omitted placeholder. This project models the pure operations Limn performs on such trees, and proves what they promise:

- **Diffing** (`diff.dfy`, `diff_properties.dfy`, `edit_scripts.dfy`). Two trees are merged into one. At every divergence a `Diff` record with an optional `original` and an optional `update` side is embedded, as a struct carrying the reserved type name `Limn.Limn.Diff`. Ordered collections follow an edit script of removal and insertion offsets.
- **Undiffing** (`undiff.dfy`). Diff records are stripped back to one side, and children that side never had are dropped.
- **Filtering** (`filter.dfy`, `filter_properties.dfy`). Subtrees are pruned by a predicate with a match-depth counter. Non-matching subtrees collapse to `Omitted(Filtered)`, while ancestors of survivors are kept.
- **Sorting** (`sort.dfy`, `sort_properties.dfy`, `sorting.dfy`). Record properties are ordered by label. Dictionary entries and set elements are ordered by a derived comparison string. Collections and tuples keep their order.
- **Statistics** (`stats.dfy`, `stats_properties.dfy`). A single fold records the depth, the diff, filtered and unresolved counts, and the type names.
- **Key lookup** (`keyvalue.dfy`, `keyvalue_properties.dfy`). String-keyed child access is defined per node kind, including lookups through diff records.
- **Dumping** (`dump_tokens.dfy`, `tokenize.dfy`, `summarize.dfy`, `render.dfy`):
  - trees become layout tokens;
  - width and fit arithmetic;
  - over-long, unchanged and filtered children are summarised run by run;
  - groups are laid out on one line or broken over several;
  - the two sides of a diff are printed as a line-level diff with `- `, `+ ` and `  ` markers.
- **Utilities**:
  - the tree datatype and its labelled and keyed pairs (`limn.dfy`);
  - safe indexing, chunking, indentation and pointer alignment (`extensions.dfy`);
  - property-name and type-name formatting (`format.dfy`, `format_properties.dfy`);
  - the Objective-C struct type-encoding parser (`objc_runtime.dfy`).

Library hooks the original delegates to become parameters:

- the `LIKE` matcher;
- the string comparator and the hash-derived strings;
- the printf-style templates;
- the edit script `CollectionDifference` would compute, constrained by a validity predicate.

Everything else is a pure function over the tree.

Properties present only on the updated side are appended to the diffed record unwrapped, with no addition record around them (Sources/Limn/Features/Limn+Diff.swift:423-426). Undiffing such a diff towards the original side therefore keeps them (`DiffEntries.AddedPropertyPlain`, `DiffProperties.InsertedPropertyNotRecorded`).

## Model

| member | source | states |
|---|---|---|
| Limns.OmittedPair | Sources/Limn/Utils/LimnValuePairs.swift:12-14 | the omitted dictionary entry has key and value both `.omitted` with the given reason |
| Limns.OmittedLabeled | Sources/Limn/Utils/LimnValuePairs.swift:28-30 | the omitted property keeps the given label and wraps `.omitted(reason)` |
| Limns.FirstIndexOfLabel | Sources/Limn/Features/Limn+Diff.swift:24-25 | the index found is the first pair carrying the label; no index means no pair carries it |
| Limns.ValueOfLabel | Sources/Limn/Features/Limn+Diff.swift:24-25 | a value is found exactly when some pair carries the label, and it is one of the pairs' values |
| Limns.Encode | Sources/Limn/Features/Limn+Diff.swift:28-40 | the record is a struct with the reserved Diff type name and one property per present side |
| Limns.Decode | Sources/Limn/Utils/Limn+Test.swift:3-10 | a diff is read back exactly when the tree is a struct with the reserved Diff type name |
| Limns.DecodeEncode | Sources/Limn/Features/Limn+Diff.swift:17-40 | reading back a stored diff record gives the same two sides, absent sides included |
| Limns.EncodeInjective | Sources/Limn/Features/Limn+Diff.swift:28-40 | two different diffs are never stored as the same tree |
| Diffing.Diffed | Sources/Limn/Features/Limn+Diff.swift:105-121 | for inputs without diffing information the result is the recursive diff of the inputs themselves |
| Diffing.DiffRec | Sources/Limn/Features/Limn+Diff.swift:125-158 | inputs of different kinds become one whole-node replacement record |
| Diffing.DiffClass | Sources/Limn/Features/Limn+Diff.swift:160-177 | two classes with the same name and address stay a class with that identity; a change of either becomes a diff record |
| Diffing.DiffCollection | Sources/Limn/Features/Limn+Diff.swift:179-190 | two collections give a collection |
| Diffing.DiffEnum | Sources/Limn/Features/Limn+Diff.swift:205-231 | a change of type or case name replaces the whole node; otherwise the enum keeps its identity and has a payload exactly when either side has one |
| Diffing.DiffOptional | Sources/Limn/Features/Limn+Diff.swift:233-251 | a change of presence replaces the whole node; two absent optionals are returned unchanged |
| Diffing.DiffSet | Sources/Limn/Features/Limn+Diff.swift:253-264 | two sets give a set |
| Diffing.DiffStruct | Sources/Limn/Features/Limn+Diff.swift:266-283 | two structs with the same name stay that struct; a change of name becomes a diff record |
| Diffing.DiffTuple | Sources/Limn/Features/Limn+Diff.swift:285-303 | different label sequences replace the whole node; equal ones keep the labels in order |
| Diffing.DiffLeafValue | Sources/Limn/Features/Limn+Diff.swift:305-320 | a leaf is returned unchanged exactly when the other side is the same leaf, and otherwise becomes a replacement |
| Diffing.DiffOmitted | Sources/Limn/Features/Limn+Diff.swift:322-337 | an omitted node is returned unchanged exactly when the other side has the same reason, and otherwise becomes a replacement |
| Diffing.SetMembers | Sources/Limn/Features/Limn+Diff.swift:386-387 | the set members are exactly the non-omitted elements, each once |
| Diffing.NonOmitted | Sources/Limn/Features/Limn+Diff.swift:386-387 | keeps exactly the elements that are not omitted |
| Diffing.MatchLabel | Sources/Limn/Features/Limn+Diff.swift:409-416 | the match is the first pair with the label whose value is not omitted; no match means there is no such pair |
| Diffing.MatchKey | Sources/Limn/Features/Limn+Diff.swift:433-440 | the match is the first entry with the key whose value is not omitted; no match means there is no such entry |
| Diffing.DiffZip | Sources/Limn/Features/Limn+Diff.swift:294-301 | tuple elements are paired position by position and keep the old labels |
| DiffEntries.DiffLabeledFromMembers | Sources/Limn/Features/Limn+Diff.swift:415-421 | a property is among the diffed old properties exactly when it is an old property with a value, diffed against the new property with its label or, when no new property with a value has that label, kept under its label as a removal |
| DiffEntries.InsertedLabeledSound | Sources/Limn/Features/Limn+Diff.swift:423-426 | every appended property is a new property with a value, the first with its label, whose label no old property with a value carries |
| DiffEntries.InsertedLabeledComplete | Sources/Limn/Features/Limn+Diff.swift:423-426 | every new property with a value whose label no old property with a value carries is appended, as it is |
| DiffEntries.InsertedLabeledMembers | Sources/Limn/Features/Limn+Diff.swift:423-426 | a property is appended exactly when it is such a new-only property |
| DiffEntries.DiffLabeledMembers | Sources/Limn/Features/Limn+Diff.swift:404-429 | the diffed properties are exactly the old properties with a value in their diffed or removed form, and the new-only properties unwrapped |
| DiffEntries.RemovedPropertyMarked | Sources/Limn/Features/Limn+Diff.swift:418-419 | an old property with a value and no namesake with a value on the new side appears under its label as a removal of its value |
| DiffEntries.MatchedPropertyDiffed | Sources/Limn/Features/Limn+Diff.swift:416-417 | an old property with a value whose label the new side has appears under its label with its value diffed against the new one |
| DiffEntries.AddedPropertyPlain | Sources/Limn/Features/Limn+Diff.swift:423-426 | a new-only property appears in the result exactly as it is, without an addition record |
| DiffEntries.DiffKeyedFromMembers | Sources/Limn/Features/Limn+Diff.swift:439-447 | an entry is among the diffed old entries exactly when it is an old entry with a value, its key and value diffed against the new entry with its key or both marked removed |
| DiffEntries.InsertedKeyedMembers | Sources/Limn/Features/Limn+Diff.swift:449-456 | an entry is appended exactly when it is a new-only entry with its key and its value both marked added |
| DiffEntries.DiffKeyedMembers | Sources/Limn/Features/Limn+Diff.swift:431-459 | the diffed entries are exactly the old entries with a value in their diffed or removed form, and the new-only entries with key and value marked added |
| DiffEntries.RemovedEntryMarked | Sources/Limn/Features/Limn+Diff.swift:444-445 | an old entry with a value whose key the new side lacks appears with its key and its value both marked removed |
| DiffEntries.MatchedEntryDiffed | Sources/Limn/Features/Limn+Diff.swift:440-443 | an old entry with a value whose key the new side has appears with key and value each diffed against that entry's |
| DiffEntries.AddedEntryMarked | Sources/Limn/Features/Limn+Diff.swift:449-455 | a new-only entry appears with its key and its value both marked added |
| DiffEntries.MarkRemovedMembers | Sources/Limn/Features/Limn+Diff.swift:389-395 | the marked old members are exactly the old members the new side has, unwrapped, and removal records of the others |
| DiffEntries.AdditionsMembers | Sources/Limn/Features/Limn+Diff.swift:397-398 | the added members are exactly addition records of the given members |
| DiffEntries.DiffSetElementsMembers | Sources/Limn/Features/Limn+Diff.swift:384-402 | a member of the diffed set is exactly a non-omitted member of both sides, a removal of a non-omitted old-only member or an addition of a non-omitted new-only member |
| DiffExamples.DictionaryScenario | Tests/LimnTests/Tests/FeaturesTests/LimnDiffTests.swift:139-186 | diffing `[2: "2", 23: "24", 4: "4", 5: "5"]` to `[1: "1", 2: "56", 25: "24", 4: "4"]` replaces the value of key 2, removes keys 23 and 5 with their values, keeps key 4 and adds keys 1 and 25 with their values |
| DiffProperties.ContainsDiffNotPlain | Sources/Limn/Features/Limn+Diff.swift:50-77 | a tree in which diffing information is found holds a diff record somewhere |
| DiffProperties.ContainsDiffIgnoresKeys | Sources/Limn/Features/Limn+Diff.swift:61-62 | a diff record used as a dictionary key is not reported: dictionaries are inspected through their values only |
| DiffProperties.DiffRecIdentity | Sources/Limn/Features/Limn+Diff.swift:125-337 | diffing a tree with unique labels, keys and set members against itself returns the tree unchanged, given a differ that reports no edits between equal sequences |
| DiffProperties.DiffWalkIdentity | Sources/Limn/Features/Limn+Diff.swift:341-382 | with the empty edit script every element is diffed against itself and kept |
| DiffProperties.DiffLabeledIdentity | Sources/Limn/Features/Limn+Diff.swift:404-429 | properties with unique labels diffed against themselves come back unchanged and nothing is appended |
| DiffProperties.DiffKeyedIdentity | Sources/Limn/Features/Limn+Diff.swift:431-459 | entries with unique keys diffed against themselves come back unchanged and nothing is appended |
| DiffProperties.DiffZipIdentity | Sources/Limn/Features/Limn+Diff.swift:294-301 | tuple elements diffed against themselves come back unchanged |
| DiffProperties.DiffSetIdentity | Sources/Limn/Features/Limn+Diff.swift:384-402 | a set of distinct non-omitted members diffed against itself keeps every member, unwrapped |
| DiffProperties.DiffSelfHasNoDiff | Tests/LimnTests/Tests/FeaturesTests/LimnDiffTests.swift:371-377 | a tree diffed against itself carries no diffing information |
| DiffProperties.ReplacementUndiff | Sources/Limn/Features/Limn+Undiff.swift:21-32 | a replacement record undiffs to its original side towards the original and to its update side towards the update |
| DiffProperties.RemovalUndiff | Sources/Limn/Features/Limn+Undiff.swift:21-32 | a removal record undiffs to its value towards the original and to nothing towards the update |
| DiffProperties.AdditionUndiff | Sources/Limn/Features/Limn+Undiff.swift:21-32 | an addition record undiffs to nothing towards the original and to its value towards the update |
| DiffProperties.RoundTrip | Tests/LimnTests/Tests/FeaturesTests/LimnUndiffTests.swift:8-43 | undiffing the diff of two clean trees that line up gives the first tree towards the original and the second towards the update |
| DiffProperties.RoundTripClass | Sources/Limn/Features/Limn+Diff.swift:160-177 | the round trip for two classes, including a change of name or address |
| DiffProperties.RoundTripStruct | Sources/Limn/Features/Limn+Diff.swift:266-283 | the round trip for two structs, including a change of name |
| DiffProperties.RoundTripLabeled | Sources/Limn/Features/Limn+Diff.swift:404-429 | diffed properties with the same labels undiff back to the old and to the new properties |
| DiffProperties.RoundTripCollection | Sources/Limn/Features/Limn+Diff.swift:179-190 | the round trip for two collections under any valid edit script |
| DiffProperties.RoundTripWalk | Sources/Limn/Features/Limn+Diff.swift:341-382 | the walked elements undiff to the rest of the old elements towards the original and to the rest of the new ones towards the update |
| DiffProperties.RoundTripDictionary | Sources/Limn/Features/Limn+Diff.swift:192-203 | the round trip for two dictionaries with the same keys |
| DiffProperties.RoundTripKeyed | Sources/Limn/Features/Limn+Diff.swift:431-459 | diffed entries with the same keys undiff back to the old and to the new entries |
| DiffProperties.RoundTripEnum | Sources/Limn/Features/Limn+Diff.swift:205-231 | the round trip for two enums, including a change of type or case |
| DiffProperties.RoundTripOptional | Sources/Limn/Features/Limn+Diff.swift:233-251 | the round trip for two optionals, including a change of presence |
| DiffProperties.RoundTripTuple | Sources/Limn/Features/Limn+Diff.swift:285-303 | the round trip for two tuples, whether or not their labels agree |
| DiffProperties.RoundTripZip | Sources/Limn/Features/Limn+Diff.swift:294-301 | tuple elements zipped and diffed undiff back to either side |
| DiffProperties.RoundTripSet | Sources/Limn/Features/Limn+Diff.swift:253-264 | the round trip for two sets whose new members list the surviving old ones first |
| DiffProperties.RoundTripSetElements | Sources/Limn/Features/Limn+Diff.swift:384-402 | the set diff undiffs to the old members towards the original and to the new members towards the update |
| DiffProperties.MarkRemovedUndiff | Sources/Limn/Features/Limn+Diff.swift:389-395 | the marked old members undiff to all old members towards the original and to the surviving ones towards the update |
| DiffProperties.AdditionsUndiff | Sources/Limn/Features/Limn+Diff.swift:397-399 | added members vanish towards the original and come back towards the update |
| DiffProperties.DiffedRoundTrip | Sources/Limn/Features/Limn+Diff.swift:105-121 | the round trip holds through the public entry point as well |
| DiffProperties.DiffPlainIffEqual | Tests/LimnTests/Tests/FeaturesTests/LimnDiffTests.swift:62-70 | the diff of two clean trees that line up is free of diff records exactly when the trees are equal |
| DiffProperties.RediffFromOriginal | Sources/Limn/Features/Limn+Diff.swift:105-112 | diffing an existing diff against a new value starts from the diff's original side |
| DiffProperties.RediffToUpdate | Sources/Limn/Features/Limn+Diff.swift:105-112 | diffing against an existing diff uses that diff's update side |
| DiffProperties.DiffedSides | Sources/Limn/Features/Limn+Diff.swift:105-112 | the entry point diffs the original side of the receiver against the updated side of the argument |
| DiffProperties.RediffAddition | Sources/Limn/Features/Limn+Diff.swift:105-116 | an addition record diffed again has no original side, so the result is an addition of the new value |
| DiffProperties.RediffRemoval | Sources/Limn/Features/Limn+Diff.swift:105-114 | diffing against a removal record, which has no update side, gives a removal of the receiver |
| DiffProperties.InsertedPropertyNotRecorded | Sources/Limn/Features/Limn+Diff.swift:423-426 | a property only the update has is appended without a record, so the diff undiffs to the update even towards the original |
| DiffProperties.CollectionScenario | Tests/LimnTests/Tests/FeaturesTests/LimnDiffTests.swift:62-83 | [2, 3, 4, 5] diffed to [1, 2, 9, 4] gives an addition of 1, 2, a replacement of 3 by 9, 4 and a removal of 5 |
| DiffProperties.DiffWalkFollowsTrace | Sources/Limn/Features/Limn+Diff.swift:349-379 | each diffed element is the result of one step of the script's walk, in order: recursion for kept and replaced positions, an addition for an insertion, a removal for a removal |
| Undiffing.Undiff | Sources/Limn/Features/Limn+Undiff.swift:18-83 | the result never holds a diff record or an absent-optional dictionary entry; a node that is not a diff record always undiffs, keeping its kind, name, address and case |
| Undiffing.UndiffAll | Sources/Limn/Features/Limn+Undiff.swift:41-43 | no more elements than before, each free of diff records |
| Undiffing.UndiffLabeled | Sources/Limn/Features/Limn+Undiff.swift:34-39 | no more pairs than before, each value free of diff records |
| Undiffing.UndiffEntry | Sources/Limn/Features/Limn+Undiff.swift:46-51 | a kept entry has neither key nor value an absent optional, and both are free of diff records |
| Undiffing.UndiffKeyed | Sources/Limn/Features/Limn+Undiff.swift:45-52 | no more entries than before, none with an absent-optional key or value |
| Undiffing.UndiffEncode | Sources/Limn/Features/Limn+Undiff.swift:21-32 | a diff record undiffs to its requested side, itself undiffed, or to nothing when that side is absent |
| Undiffing.UndiffIdentity | Sources/Limn/Features/Limn+Undiff.swift:34-81 | a tree without diff records or absent-optional entries undiffs to itself; value and omitted nodes in particular |
| Undiffing.UndiffAllIdentity | Sources/Limn/Features/Limn+Undiff.swift:41-43 | elements without diff records are all kept unchanged |
| Undiffing.UndiffLabeledIdentity | Sources/Limn/Features/Limn+Undiff.swift:34-39 | pairs without diff records are all kept unchanged |
| Undiffing.UndiffKeyedIdentity | Sources/Limn/Features/Limn+Undiff.swift:45-52 | entries without diff records or absent optionals are all kept unchanged |
| Undiffing.UndiffIdempotent | Sources/Limn/Features/Limn+Undiff.swift:18-83 | undiffing an undiffed tree again, in either direction, changes nothing |
| Undiffing.UndiffDirectionFree | Sources/Limn/Features/Limn+Undiff.swift:18-83 | on a tree without diff records the two directions agree |
| Undiffing.UndiffLabeledPointwise | Sources/Limn/Features/Limn+Undiff.swift:34-39 | when no value vanishes every pair stays in place with its label and its undiffed value |
| Undiffing.UndiffLabeledAllVanish | Sources/Limn/Features/Limn+Undiff.swift:35-36 | pairs whose values all vanish leave nothing |
| Undiffing.UndiffAllPointwise | Sources/Limn/Features/Limn+Undiff.swift:41-43 | when no element vanishes every element stays in place, undiffed |
| Undiffing.UndiffAllVanish | Sources/Limn/Features/Limn+Undiff.swift:41-43 | elements that all vanish leave nothing |
| Undiffing.UndiffAllAppend | Sources/Limn/Features/Limn+Undiff.swift:41-43 | undiffing a concatenation undiffs each part |
| Filtering.NewContext | Sources/Limn/Features/Limn+Filter.swift:13-20 | a new context keeps the current depth and predicate and clamps a negative match depth to 0 |
| Filtering.Decrementing | Sources/Limn/Features/Limn+Filter.swift:22-24 | one level down lowers the current match depth by one but never below 0 |
| Filtering.Incrementing | Sources/Limn/Features/Limn+Filter.swift:26-28 | one level up raises the current match depth |
| Filtering.Maximizing | Sources/Limn/Features/Limn+Filter.swift:30-32 | below a match the current match depth is reset to the full match depth |
| Filtering.FilterRec | Sources/Limn/Features/Limn+Filter.swift:105-138 | the result is a filtered placeholder or a node of the same shape; a matching or in-depth node other than an optional keeps its shape; a leaf outside both is filtered |
| Filtering.FilterClass | Sources/Limn/Features/Limn+Filter.swift:140-161 | a class is kept exactly when it matches, is within the match depth or keeps a non-omitted property; kept, it has the same name, address and labels and its properties filtered with the maximised or decremented context |
| Filtering.FilterCollection | Sources/Limn/Features/Limn+Filter.swift:163-184 | a collection is kept exactly when it matches, is within the match depth or keeps a non-omitted element; kept, every element is filtered in place |
| Filtering.FilterDictionary | Sources/Limn/Features/Limn+Filter.swift:186-215 | a dictionary is kept exactly when it matches, is within the match depth or has an entry not filtered away on both sides; kept, every entry is filtered in place |
| Filtering.FilterPair | Sources/Limn/Features/Limn+Filter.swift:196-208 | an entry filtered away on both sides becomes two filtered placeholders; otherwise a side that filtered away is put back as it was |
| Filtering.FilterEnum | Sources/Limn/Features/Limn+Filter.swift:217-233 | an enum is kept exactly when it matches, is within the match depth or its payload survives; kept, it has the same name and case and its payload filtered |
| Filtering.FilterOptional | Sources/Limn/Features/Limn+Filter.swift:235-260 | an absent optional is kept exactly when it matches; a matching one is always kept with a value, re-filtered one level deeper when the value filtered away; a non-matching one is kept exactly when it is within the match depth or its value survives under the unchanged context |
| Filtering.FilterSet | Sources/Limn/Features/Limn+Filter.swift:262-283 | a set is kept exactly when it matches, is within the match depth or keeps a non-omitted element; kept, every element is filtered in place |
| Filtering.FilterStruct | Sources/Limn/Features/Limn+Filter.swift:285-306 | a struct is kept exactly when it matches, is within the match depth or keeps a non-omitted property; kept, it has the same name and labels |
| Filtering.FilterTuple | Sources/Limn/Features/Limn+Filter.swift:308-329 | a tuple is kept exactly when it matches, is within the match depth or keeps a non-omitted element; kept, it has the same labels |
| Filtering.FilterLeaf | Sources/Limn/Features/Limn+Filter.swift:331-357 | a value or omitted node is returned unchanged when it matches or is within the match depth, and becomes a filtered placeholder otherwise |
| Filtering.FilterAll | Sources/Limn/Features/Limn+Filter.swift:173-177 | every element is filtered with the same context, in place |
| Filtering.FilterLabeled | Sources/Limn/Features/Limn+Filter.swift:150-154 | every labelled value is filtered with the same context and keeps its label |
| Filtering.FilterKeyed | Sources/Limn/Features/Limn+Filter.swift:196-208 | every entry is filtered as a pair, in place |
| Filtering.FilteredByDisplayStyle | Sources/Limn/Features/Limn+Filter.swift:44-65 | filtering by display style gives a placeholder or a node of the same shape, and a matching non-optional root keeps its shape |
| Filtering.FilteredByValue | Sources/Limn/Features/Limn+Filter.swift:74-97 | filtering by description gives a placeholder or a node of the same shape, and a matching root keeps its shape |
| FilterProperties.FilterKeepMonotone | Sources/Limn/Features/Limn+Filter.swift:140-260 | a node that survives keeps surviving when the current match depth grows |
| FilterProperties.FilterAcceptAll | Sources/Limn/Features/Limn+Filter.swift:105-357 | a predicate that accepts every node leaves the tree unchanged, except for entries whose key and value are both omitted |
| FilterProperties.FilterAcceptNone | Sources/Limn/Features/Limn+Filter.swift:105-357 | a predicate that accepts nothing, outside any match depth, filters the whole tree to one placeholder |
| FilterProperties.LikeLiteral | Sources/Limn/Features/Limn+Filter.swift:101-103 | a pattern without wildcards matches exactly itself |
| FilterProperties.FilterValueWorld | Tests/LimnTests/Tests/FeaturesTests/LimnFilterTests.swift:206-209 | filtering the simple class by "world" filters everything away |
| FilterProperties.WorldMatches | Tests/LimnTests/Tests/FeaturesTests/LimnFilterTests.swift:221-231 | the pattern "*world*" matches the quoted greeting and not "77" |
| FilterProperties.FilterValueContainsWorld | Tests/LimnTests/Tests/FeaturesTests/LimnFilterTests.swift:221-231 | "*world*" keeps the class with the first property filtered and the greeting kept |
| FilterProperties.FilterValueExact | Tests/LimnTests/Tests/FeaturesTests/LimnFilterTests.swift:233-243 | "77" keeps the class with the first property kept and the greeting filtered |
| FilterProperties.FilterClassStyle | Tests/LimnTests/Tests/FeaturesTests/LimnFilterTests.swift:23-47 | filtering a container by the class style keeps the inner class with its properties filtered away and filters the other members (a three-member container stands for the nine-member one) |
| Sorts.ComparisonResultValue | Sources/Limn/Features/Limn+Sort.swift:27-36 | the order's wanted outcome is never "same", and it is "ascending" exactly for ascending order |
| Sorts.DescendingIsFlipped | Sources/Limn/Features/Limn+Sort.swift:51-59 | for an antisymmetric string comparison, the descending comparator is the ascending one with its arguments swapped |
| Sorts.SortString | Sources/Limn/Features/Limn+Sort.swift:63-100 | an omitted node is keyed by the placeholder string that sorts last; an absent optional by "."; a present optional by its wrapped value; every other non-diff node by a string that ends in "." and then its hash text |
| Sorts.SortStringOfDiff | Sources/Limn/Features/Limn+Sort.swift:84-86 | an encoded diff record is keyed by its original side when there is one, else by its update side, else by the empty string |
| Sorts.PropertyOrder | Sources/Limn/Features/Limn+Sort.swift:106-107 | the reordered properties are a permutation of the originals |
| Sorts.EntryOrder | Sources/Limn/Features/Limn+Sort.swift:116-117 | the reordered dictionary entries are a permutation of the originals |
| Sorts.ElementOrder | Sources/Limn/Features/Limn+Sort.swift:130-131 | the reordered set elements are a permutation of the originals |
| Sorts.SortRec | Sources/Limn/Features/Limn+Sort.swift:102-150 | every node keeps its case, name, address and enum case; class and struct properties, dictionary entries and set elements are reordered and then sorted inside; collection and tuple children keep their positions and labels; values and omitted nodes are unchanged |
| Sorts.SortLabeled | Sources/Limn/Features/Limn+Sort.swift:108 | each reordered property keeps its label at its position and has its value sorted |
| Sorts.SortElements | Sources/Limn/Features/Limn+Sort.swift:112 | each element at its position is the sorted element from the same position |
| Sorts.SortKeyed | Sources/Limn/Features/Limn+Sort.swift:118-119 | each entry at its position has its key and its value sorted |
| SortProperties.PropertiesSorted | Sources/Limn/Features/Limn+Sort.swift:135-139 | under a strict weak order the labels of a sorted class or struct are in order |
| SortProperties.PropertiesPermuted | Sources/Limn/Features/Limn+Sort.swift:105-109 | the sorted properties are the original properties, each value sorted, as a multiset, and they carry the same labels |
| SortProperties.SetPermuted | Sources/Limn/Features/Limn+Sort.swift:129-133 | the sorted set holds the original elements, each sorted, as a multiset |
| SortProperties.DictionaryPermuted | Sources/Limn/Features/Limn+Sort.swift:115-120 | the sorted dictionary holds the original entries, key and value sorted, as a multiset |
| SortProperties.EntriesSorted | Sources/Limn/Features/Limn+Sort.swift:116-117 | under a strict weak order the entries are ordered by their keys' comparison strings |
| SortProperties.ElementsSorted | Sources/Limn/Features/Limn+Sort.swift:130-131 | under a strict weak order the set elements are ordered by their comparison strings |
| SortProperties.OmittedElementsLast | Sources/Limn/Features/Limn+Sort.swift:97-98 | when every other string comes before the placeholder, nothing but placeholder-keyed elements follows an omitted element of a sorted set |
| SortProperties.LabelsSeparate | Sources/Limn/Features/Limn+Sort.swift:106-107 | with distinct labels and a total comparator no two properties tie |
| SortProperties.ByLabelFlipped | Sources/Limn/Features/Limn+Sort.swift:51-59 | comparing properties by label in descending order is comparing them in ascending order with the arguments swapped |
| SortProperties.DescendingReversesProperties | Tests/LimnTests/Tests/FeaturesTests/LimnSortTests.swift:6-64 | with distinct labels and a total antisymmetric comparison, descending order lists the properties of a class or struct in exactly the reverse of ascending order |
| Sorting.SortBy | Sources/Limn/Utils/SwiftExtensions.swift:44-52 | the sorted sequence is a permutation of the input |
| Sorting.SortBySorted | Sources/Limn/Utils/SwiftExtensions.swift:44-52 | under a strict weak order the sorted sequence is ordered |
| Sorting.SortedUnique | Sources/Limn/Utils/SwiftExtensions.swift:44-52 | two ordered permutations of each other are equal when the comparator separates all their elements |
| Sorting.SortFlippedIsReverse | Sources/Limn/Utils/SwiftExtensions.swift:44-52 | sorting with the swapped comparator gives the reverse order when no two elements tie |
| Sorting.MapPermutation | Sources/Limn/Features/Limn+Sort.swift:106-108 | mapping a permutation of a sequence gives a permutation of the mapped sequence |
| Extensions.SafeIndex | Sources/Limn/Utils/SwiftExtensions.swift:3-5 | there is a result exactly when the index is in bounds, and it is the element at that index |
| Extensions.TakeChunk | Sources/Limn/Utils/SwiftExtensions.swift:30-34 | one chunk is the slice from the start up to the chunk size or the end of the input, whichever comes first |
| Extensions.Chunked | Sources/Limn/Utils/SwiftExtensions.swift:23-42 | with the remainder kept, the chunks concatenate back to the input, and every chunk but the last is full and non-empty; without it, every chunk is exactly the chunk size, they form a prefix of the input, and less than one chunk is dropped; a chunk size below 1 yields no chunks then |
| Extensions.Indented | Sources/Limn/Utils/SwiftExtensions.swift:57-66 | a count of 0 or less leaves the string as it is; otherwise the result starts with the prefix repeated count times |
| Extensions.IndentedKeepsLines | Sources/Limn/Utils/SwiftExtensions.swift:64-65 | with a prefix free of newlines, indenting keeps the number of lines |
| Extensions.AfterNewlinesKeepsLines | Sources/Limn/Utils/SwiftExtensions.swift:65 | inserting a newline-free prefix after every newline keeps the newline count |
| Extensions.StripAfterNewlinesInverse | Sources/Limn/Utils/SwiftExtensions.swift:65 | removing the prefix after every newline undoes inserting it |
| Extensions.IndentedRoundTrip | Sources/Limn/Utils/SwiftExtensions.swift:57-66 | removing the leading prefix and the prefix after every newline gives back the original string |
| Extensions.AlignedUp | Sources/Limn/Utils/SwiftExtensions.swift:71-78 | the aligned address is a multiple of the stride, not below the address and less than one stride above it |
| Extensions.AlignedUpSmallest | Sources/Limn/Utils/SwiftExtensions.swift:71-78 | no multiple of the stride lies between the address and its aligned value |
| Statistics.Deepest | Sources/Limn/Features/Limn+Stats.swift:46-49 | leaving a node raises the recorded maximum depth to at least the node's depth and changes nothing else |
| Statistics.Fill | Sources/Limn/Features/Limn+Stats.swift:43-103 | the walk never lowers the maximum depth and never forgets a type name |
| Statistics.StatsOf | Sources/Limn/Features/Limn+Stats.swift:33-39 | the maximum depth of any tree is at least 1 |
| Statistics.TallyOf | Sources/Limn/Features/Limn+Stats.swift:90-102 | a value is one level deep and counts nothing; an omitted node adds no depth and counts one filtered or unresolved placeholder by its reason |
| StatsProperties.FillIsTally | Sources/Limn/Features/Limn+Stats.swift:43-103 | walking a subtree adds exactly its compositional tally to what was accumulated, at any entry depth |
| StatsProperties.FillEnumIsTally | Sources/Limn/Features/Limn+Stats.swift:65-68 | walking an enum adds its name, one level and its associated value's tally |
| StatsProperties.FillDiffIsTally | Sources/Limn/Features/Limn+Stats.swift:77-79 | walking a diff record adds one diff and the tally of its update side, without a level of its own |
| StatsProperties.FillLabeledIsTally | Sources/Limn/Features/Limn+Stats.swift:55 | walking a list of properties adds the merged tally of their values |
| StatsProperties.FillElementsIsTally | Sources/Limn/Features/Limn+Stats.swift:59 | walking a list of elements adds their merged tally |
| StatsProperties.FillValuesIsTally | Sources/Limn/Features/Limn+Stats.swift:63 | walking dictionary entries adds the merged tally of their values |
| StatsProperties.StatsIsTally | Sources/Limn/Features/Limn+Stats.swift:33-39 | the statistics of a tree are its tally's counts and names, with its height as maximum depth but never below 1 |
| StatsProperties.KeysNotVisited | Sources/Limn/Features/Limn+Stats.swift:61-63 | replacing the keys of a dictionary changes no statistic |
| StatsProperties.DiffRecordStats | Sources/Limn/Features/Limn+Stats.swift:77-79 | a diff record counts once and contributes only what its update side contributes |
| StatsProperties.OriginalNotVisited | Sources/Limn/Features/Limn+Stats.swift:77-79 | two diff records that differ only in their original side have the same statistics |
| StatsProperties.OneProperty | Sources/Limn/Features/Limn+Stats.swift:52-55 | a class or plain struct with one property is one level deeper than that property and adds its own name |
| StatsProperties.OneElement | Sources/Limn/Features/Limn+Stats.swift:57-59 | a collection with one element is one level deeper than it |
| StatsProperties.OneEntry | Sources/Limn/Features/Limn+Stats.swift:61-63 | a dictionary with one entry is one level deeper than its value |
| StatsProperties.TwinTuple | Sources/Limn/Features/Limn+Stats.swift:86-88 | a tuple of two equal values is one level deeper than the value and has its names |
| StatsProperties.MaxDepthScenario | Tests/LimnTests/Tests/FeaturesTests/LimnStatsTests.swift:29-46 | the optional dictionary of a collection of a tuple of structs holding classes holding optional enums is six levels deep, with or without the optional, and names three types |
| KeyValues.ParseInt | Sources/Limn/Features/Limn+KeyValue.swift:61 | a key reads as an integer only when it is non-empty and within the 64-bit range |
| KeyValues.Digits | Sources/Limn/Features/Limn+KeyValue.swift:33-35 | the decimal digits of a natural number are non-empty, unsigned and read back as the number |
| KeyValues.ParseIntDescription | Sources/Limn/Features/Limn+KeyValue.swift:33-35 | reading back the decimal description of a 64-bit integer gives the integer |
| KeyValues.FirstDescribed | Sources/Limn/Features/Limn+KeyValue.swift:99-110 | the index found is that of the first leaf whose description is the key or the key in double quotes, and nothing is found exactly when no element is such a leaf |
| KeyValues.TupleLookup | Sources/Limn/Features/Limn+KeyValue.swift:86-87 | a key that reads as an in-range index picks that position; any other key is looked up by label |
| KeyValues.Lookup | Sources/Limn/Features/Limn+KeyValue.swift:50-95 | an empty key finds nothing; classes and plain structs look up by label; collections by bounds-checked index; dictionaries and sets find the first leaf described by the key; tuples and enums with a tuple payload by index then label; other enum payloads only under "0"; diff records always answer with a diff record; optionals, values, omitted nodes and enums without payload find nothing |
| KeyValueProperties.LookupIntCollection | Sources/Limn/Features/Limn+KeyValue.swift:33-35 | an integer key on a collection is the bounds-checked index |
| KeyValueProperties.LookupIntTuple | Tests/LimnTests/Tests/FeaturesTests/LimnKeyValueTests.swift:33-36 | an in-range integer key on a tuple picks by position, whatever the labels are |
| KeyValueProperties.LookupDiffRecord | Sources/Limn/Features/Limn+KeyValue.swift:78-80 | a key on a diff record gives the record of the key looked up on each side, an absent side giving nothing |
| KeyValueProperties.UndiffLookupThroughDiff | Sources/Limn/Features/Limn+KeyValue.swift:78-80 | looking a key up through a diff record and then undiffing gives the same as looking it up on the chosen side and undiffing |
| KeyValueProperties.SemiLabeledTupleLookups | Tests/LimnTests/Tests/FeaturesTests/LimnKeyValueTests.swift:28-36 | on the semi-labelled tuple, a label and the index 2 both find 3.0, the index 4 finds nothing and a positional label finds its element |
| KeyValueProperties.DiffedLookupScenario | Tests/LimnTests/Tests/FeaturesTests/LimnKeyValueTests.swift:69-91 | in a diffed two-dimensional array with an appended row, indexing into the new row gives a record with only the update side |
| Formatting.FormatPropertyName | Sources/Limn/Utils/Limn+Format.swift:37-44 | a name that starts with the lazy-storage prefix loses exactly that prefix; any other name is unchanged |
| Formatting.SplitOn | Sources/Limn/Utils/Limn+Format.swift:29 | splitting at a separator gives at least one part, no part holds the separator, and a string without it is its own only part |
| Formatting.SplitOnJoin | Sources/Limn/Utils/Limn+Format.swift:29 | joining the parts with the separator gives the string back |
| Formatting.SplitJoin | Sources/Limn/Utils/Limn+Format.swift:29 | splitting joined parts that hold no separator gives the parts back |
| Formatting.FirstIndexOf | Sources/Limn/Utils/Limn+Format.swift:29 | the position found holds the character, or is the end, and nothing before it holds the character |
| Formatting.SplitFrom | Sources/Limn/Utils/Limn+Format.swift:62-73 | scanning never drops or adds a character: the arguments joined with commas are what was collected followed by the scanned text |
| Formatting.SplitFromAppend | Sources/Limn/Utils/Limn+Format.swift:65-73 | scanning two pieces of text is scanning the first and then the second from the bracket level the first left |
| Formatting.SplitFromPlain | Sources/Limn/Utils/Limn+Format.swift:65-73 | text with no comma and no angle bracket only extends the current argument |
| Formatting.SplitArguments | Sources/Limn/Utils/Limn+Format.swift:62-73 | the generic arguments are non-empty as a list and joined with commas give back the argument text |
| Formatting.Trim | Sources/Limn/Utils/Limn+Format.swift:76 | trimming never lengthens, and a non-empty result starts and ends with a character outside the white space set |
| Formatting.Decompose | Sources/Limn/Utils/Limn+Format.swift:28-31 | the base name of a decomposed type name holds no dot and no angle bracket |
| Formatting.Assemble | Sources/Limn/Utils/Limn+Format.swift:28-31 | the base name is the last dot-separated part of the head |
| Formatting.DecomposeTiles | Sources/Limn/Utils/Limn+Format.swift:28-31 | the module, nesting types and base name, followed by the bracketed generic arguments when there are any, spell the name exactly |
| Formatting.DecomposeParts | Sources/Limn/Utils/Limn+Format.swift:28-31 | a name built from dot-separated parts and an optional bracketed argument list decomposes into its first part as module, its middle parts as nesting types, its last part as base and the bracket contents as arguments |
| Formatting.FormatTypeName | Sources/Limn/Utils/Limn+Format.swift:46-84 | keeping every component, or a name the pattern does not match, gives the name unchanged |
| Formatting.SimpleNameUnchanged | Tests/LimnTests/Tests/UtilsTests/Limn+FormatTests.swift:19-58 | a name without dots and angle brackets formats to itself whatever components are kept |
| Formatting.NoComponentsGivesBase | Sources/Limn/Utils/Limn+Format.swift:55-59 | with no component kept a decomposable name formats to its base name |
| Formatting.FullyQualifiedHasModule | Sources/Limn/Utils/Limn+Format.swift:24-35 | a fully qualified name without generic arguments decomposes with a non-empty module |
| Formatting.Unqualified | Sources/Limn/Utils/Limn+Format.swift:90 | a node's own name is listed only when it is not fully qualified |
| Formatting.NonFullyQualifiedTypeNames | Sources/Limn/Utils/Limn+Format.swift:86-121 | no listed name is fully qualified, and values and omitted nodes list nothing |
| Formatting.NonFullyQualifiedMembers | Sources/Limn/Utils/Limn+Format.swift:86-121 | a name is listed exactly when some class, enum or struct of the tree, dictionary keys included, has it and it is not fully qualified |
| Formatting.LabeledNamesMembers | Sources/Limn/Utils/Limn+Format.swift:90-91 | the names listed for properties are exactly the unqualified names their values declare |
| Formatting.ElementNamesMembers | Sources/Limn/Utils/Limn+Format.swift:93-94 | the names listed for elements are exactly the unqualified names they declare |
| Formatting.KeyNamesMembers | Sources/Limn/Utils/Limn+Format.swift:97 | the names listed for dictionary keys are exactly the unqualified names the keys declare |
| Formatting.ValueNamesMembers | Sources/Limn/Utils/Limn+Format.swift:98 | the names listed for dictionary values are exactly the unqualified names the values declare |
| FormatProperties.Qualified | Sources/Limn/Utils/Limn+Format.swift:24-27 | a name whose head before the first angle bracket is two or more words joined by dots is fully qualified |
| FormatProperties.NotQualified | Sources/Limn/Utils/Limn+Format.swift:24-27 | a name whose head is a single part, or has a part that is not a word, is not fully qualified |
| FormatProperties.SwiftStringQualified | Tests/LimnTests/Tests/UtilsTests/Limn+FormatTests.swift:14 | "Swift.String" is fully qualified |
| FormatProperties.GenericQualified | Tests/LimnTests/Tests/UtilsTests/Limn+FormatTests.swift:15 | the generic publisher name with module-qualified arguments is fully qualified |
| FormatProperties.NestedQualified | Tests/LimnTests/Tests/UtilsTests/Limn+FormatTests.swift:16 | a module, a nesting type and a base name joined by dots are fully qualified |
| FormatProperties.SingleWordNotQualified | Tests/LimnTests/Tests/UtilsTests/Limn+FormatTests.swift:8 | a single word is not fully qualified |
| FormatProperties.LeadingBracketNotQualified | Tests/LimnTests/Tests/UtilsTests/Limn+FormatTests.swift:9 | a name starting with an angle bracket is not fully qualified |
| FormatProperties.HyphenNotQualified | Tests/LimnTests/Tests/UtilsTests/Limn+FormatTests.swift:10 | a name with a hyphen is not fully qualified |
| FormatProperties.LeadingSpaceNotQualified | Tests/LimnTests/Tests/UtilsTests/Limn+FormatTests.swift:11 | a name with leading spaces is not fully qualified |
| FormatProperties.TrailingDotNotQualified | Tests/LimnTests/Tests/UtilsTests/Limn+FormatTests.swift:12 | a name ending in a dot is not fully qualified |
| FormatProperties.FormatParts | Sources/Limn/Utils/Limn+Format.swift:55-83 | a name built from dot-separated parts formats to the kept module, the kept nesting types, the base name and, when kept and present, the formatted arguments in angle brackets |
| FormatProperties.FormatDottedPair | Sources/Limn/Utils/Limn+Format.swift:57-59 | a two-part name keeps its first part only when the module is kept |
| FormatProperties.FormatDottedTriple | Sources/Limn/Utils/Limn+Format.swift:57-59 | a three-part name keeps its first part with the module and its middle part with the nesting types |
| FormatProperties.SplitPlainPair | Sources/Limn/Utils/Limn+Format.swift:62-73 | two bracket-free arguments separated by a comma split into those two arguments |
| FormatProperties.SplitNestedPair | Sources/Limn/Utils/Limn+Format.swift:62-73 | a comma inside nested angle brackets does not split an argument |
| FormatProperties.OuterAll | Tests/LimnTests/Tests/UtilsTests/Limn+FormatTests.swift:95-98 | keeping every component leaves the complex name as it is |
| FormatProperties.OuterNothing | Tests/LimnTests/Tests/UtilsTests/Limn+FormatTests.swift:64-67 | keeping no component reduces the complex name to "String" |
| FormatProperties.OuterModule | Tests/LimnTests/Tests/UtilsTests/Limn+FormatTests.swift:69-72 | keeping the module gives "Module.String" |
| FormatProperties.OuterGenerics | Tests/LimnTests/Tests/UtilsTests/Limn+FormatTests.swift:73-76 | keeping generic arguments gives the base names with their formatted arguments |
| FormatProperties.OuterNesting | Tests/LimnTests/Tests/UtilsTests/Limn+FormatTests.swift:77-80 | keeping nesting types gives the nesting path and the base name |
| FormatProperties.OuterModuleNesting | Tests/LimnTests/Tests/UtilsTests/Limn+FormatTests.swift:82-85 | keeping module and nesting types drops only the generic arguments |
| FormatProperties.OuterModuleGenerics | Tests/LimnTests/Tests/UtilsTests/Limn+FormatTests.swift:86-89 | keeping module and generic arguments applies the same choice inside the arguments |
| FormatProperties.OuterNestingGenerics | Tests/LimnTests/Tests/UtilsTests/Limn+FormatTests.swift:90-93 | keeping nesting types and generic arguments applies the same choice inside the arguments |
| TypeEncodings.DropFirst | Sources/Limn/Utils/ObjCRuntime.swift:42 | dropping k characters leaves what follows the first k, or nothing when the text is shorter |
| TypeEncodings.DropLast | Sources/Limn/Utils/ObjCRuntime.swift:42 | dropping the last character leaves everything before it, or nothing from an empty text |
| TypeEncodings.PrefixUntil | Sources/Limn/Utils/ObjCRuntime.swift:45 | the longest prefix free of the character: it stops on the character or at the end |
| TypeEncodings.TypeName | Sources/Limn/Utils/ObjCRuntime.swift:37-39 | the struct name is the text after the first character up to the first '=', which it does not contain |
| TypeEncodings.Body | Sources/Limn/Utils/ObjCRuntime.swift:42 | the component list is the encoding without the opening character, the name, the '=' and the last character, and is empty when the encoding is too short |
| TypeEncodings.NestableLength | Sources/Limn/Utils/ObjCRuntime.swift:23-35 | the bracket scan takes at least the first character and stops at the first prefix that brings the level to zero or below; it finds nothing when the level stays positive to the end |
| TypeEncodings.ReadNestable | Sources/Limn/Utils/ObjCRuntime.swift:23-35 | a bracketed type is the shortest non-empty prefix whose brackets balance, and it fails exactly when no prefix balances |
| TypeEncodings.ReadObject | Sources/Limn/Utils/ObjCRuntime.swift:53-56 | an object type runs through the first quote after its first two characters, and it fails exactly when there is no such quote |
| TypeEncodings.ReadType | Sources/Limn/Utils/ObjCRuntime.swift:49-68 | the type read and what follows it spell the input again; it fails only on a bracket or object type that never closes |
| TypeEncodings.Step | Sources/Limn/Utils/ObjCRuntime.swift:43-71 | one component's name holds no quote and the rest left to read is strictly shorter |
| TypeEncodings.DecodeComponents | Sources/Limn/Utils/ObjCRuntime.swift:43-72 | no component name holds a quote, and an empty body has no components |
| TypeEncodings.DecodeStructTypeEncoding | Sources/Limn/Utils/ObjCRuntime.swift:19-75 | the name holds no '=', no component name holds a quote, and an encoding too short for a body has no components |
| TypeEncodings.NestableLengthPrefix | Sources/Limn/Utils/ObjCRuntime.swift:27-32 | the scan stops at the same place whatever follows what it consumed |
| TypeEncodings.BalancedAtStop | Sources/Limn/Utils/ObjCRuntime.swift:27-32 | starting on an opening bracket the scan stops exactly where the brackets balance |
| TypeEncodings.ReadTypeWellFormed | Sources/Limn/Utils/ObjCRuntime.swift:49-68 | a well-formed type followed by a quote or by nothing is read back exactly |
| TypeEncodings.StepEncoded | Sources/Limn/Utils/ObjCRuntime.swift:43-71 | one step reads back the first of several written components |
| TypeEncodings.DecodeEncode | Sources/Limn/Utils/ObjCRuntime.swift:43-72 | every list of well-formed components, written as quoted names and types, is read back |
| TypeEncodings.DecodeStructRoundTrip | Sources/Limn/Utils/ObjCRuntime.swift:19-75 | a struct encoding built from a name without '=' and well-formed components decodes to that name and those components |
| TypeEncodings.UnclosedObjectFails | Sources/Limn/Utils/ObjCRuntime.swift:54 | an object type whose class name is never closed makes decoding fail where the original traps |
| TypeEncodings.PointDecodes | Sources/Limn/Utils/ObjCRuntime.swift:19-75 | the encoding of a point with two double fields decodes to its name and the two fields |
| EditScripts.EmptyScriptValid | Sources/Limn/Features/Limn+Diff.swift:343 | an empty edit script is valid exactly between equal sequences |
| EditScripts.StepFacts | Sources/Limn/Features/Limn+Diff.swift:349-379 | during the walk a position neither removed nor inserted exists on both sides with equal elements, a removed or inserted position is in range, and each step keeps the walk synchronised |
| EditScripts.TreeTrace | Sources/Limn/Features/Limn+Diff.swift:349-379 | in the walk that diffs ordered collections every unchanged step pairs equal elements |
| EditScripts.LineTrace | Sources/Limn/Features/Limn+Dump.swift:619-635 | the walk that diffs dump lines never pairs a replacement, and every unchanged step pairs equal lines |
| EditScripts.TreeTraceConsumesAll | Sources/Limn/Features/Limn+Diff.swift:349-379 | the collection walk visits every old and every new element exactly once, in order |
| EditScripts.LineTraceConsumesAll | Sources/Limn/Features/Limn+Dump.swift:619-635 | the line walk visits every old and every new line exactly once, in order |
| Tokenizing.Tokenize | Sources/Limn/Features/Limn+Dump.swift:275-422 | an omitted node becomes the filtered token exactly when it was filtered out, and a diff record always becomes a diff token |
| Tokenizing.TokenizePairs | Sources/Limn/Features/Limn+Dump.swift:277-283 | one pair per property, each led by the property's label written through the label template |
| Tokenizing.TokenizeAll | Sources/Limn/Features/Limn+Dump.swift:305 | one token per element |
| Tokenizing.TokenizeEntries | Sources/Limn/Features/Limn+Dump.swift:332-336 | one pair per dictionary entry, each led by the key's tokens |
| Tokenizing.IndexedPairs | Sources/Limn/Features/Limn+Dump.swift:308-318 | one pair per element of a long collection |
| Tokenizing.IndexedPairsHead | Sources/Limn/Features/Limn+Dump.swift:309-318 | the first pair is unlabelled when its element is deleted on this side and labelled with the current index otherwise, and the rest start from the next index only in the second case |
| Tokenizing.IndexedPairsNumbering | Sources/Limn/Features/Limn+Dump.swift:308-318 | every pair holds its own element's tokens; a deleted element has no label and the others are numbered consecutively |
| Tokenizing.TokenizeContainsDiff | Sources/Limn/Features/Limn+Dump.swift:275-422 | the tokens of one side hold a diff token exactly when the tree holds a diff record |
| Tokenizing.LabeledNodeDiff | Sources/Limn/Features/Limn+Dump.swift:286-297 | a class, plain struct or tuple yields a diff token exactly when it holds a diff record |
| Tokenizing.ElementsNodeDiff | Sources/Limn/Features/Limn+Dump.swift:299-320 | a collection or set yields a diff token exactly when one of its elements holds a diff record |
| Tokenizing.DictionaryNodeDiff | Sources/Limn/Features/Limn+Dump.swift:322-338 | a dictionary yields a diff token exactly when one of its keys or values holds a diff record |
| Tokenizing.EnumTupleDiff | Sources/Limn/Features/Limn+Dump.swift:344-353 | an enum with a tuple payload yields a diff token exactly when one of the tuple's values holds a diff record |
| Tokenizing.EnumPayloadDiff | Sources/Limn/Features/Limn+Dump.swift:340-364 | any other enum yields a diff token exactly when its payload holds a diff record |
| Tokenizing.CutIsValue | Sources/Limn/Features/Limn+Dump.swift:290-293 | a class, struct or tuple holding only a depth-limit or reference-cycle placeholder is written as one value |
| Tokenizing.UncutIsGroup | Sources/Limn/Features/Limn+Dump.swift:294-296 | any other class, struct or tuple is written as a group of its property pairs |
| Tokenizing.EnumTokens | Sources/Limn/Features/Limn+Dump.swift:340-364 | an enum without a tuple payload is a single value or a group around its payload's tokens |
| Tokenizing.EnumTupleTokens | Sources/Limn/Features/Limn+Dump.swift:344-353 | an enum with a tuple payload is a cut value or a group of the tuple's pairs |
| Tokenizing.PairsContainDiff | Sources/Limn/Features/Limn+Dump.swift:277-283 | the pairs hold a diff token exactly when some property value holds a diff record |
| Tokenizing.AllContainDiff | Sources/Limn/Features/Limn+Dump.swift:305 | the element tokens hold a diff token exactly when some element holds a diff record |
| Tokenizing.IndexedContainDiff | Sources/Limn/Features/Limn+Dump.swift:308-318 | the indexed pairs hold a diff token exactly when some element holds a diff record |
| Tokenizing.EntriesContainDiff | Sources/Limn/Features/Limn+Dump.swift:332-336 | the entry pairs hold a diff token exactly when some key or value holds a diff record |
| DumpTokens.FitsFromTotal | Sources/Limn/Features/Limn+Dump.swift:145-152 | the child-by-child check of a group succeeds exactly when the running total has not overrun at the start and the final total stays within the available width; nothing in between can overrun first because no width is negative |
| DumpTokens.GroupFits | Sources/Limn/Features/Limn+Dump.swift:138-160 | a group fits exactly when its whole width (prefix, children, separators between them, suffix) is at most the available width, a non-strict bound unlike the strict one for other tokens |
| DumpTokens.Tokens | Sources/Limn/Features/Limn+Dump.swift:111-118 | the tokens reachable from a token start with the token itself |
| DumpTokens.ContainsDiffReachable | Sources/Limn/Features/Limn+Dump.swift:120-136 | a token contains a diff exactly when some token reachable from it (itself, a child of a group, either side of a pair, recursively) is a diff token |
| DumpTokens.ContainsDiffReachableOf | Sources/Limn/Features/Limn+Dump.swift:130-131 | some child of a group contains a diff exactly when a diff token is reachable from the children |
| Rendering.LeadingWhitespace | Sources/Limn/Features/Limn+Dump.swift:576 | counts the whitespace characters at the start of a string: all of them are whitespace and the next one is not |
| Rendering.TrailingWhitespace | Sources/Limn/Features/Limn+Dump.swift:576 | counts the whitespace characters at the end of a string: all of them are whitespace and the one before is not |
| Rendering.Trimmed | Sources/Limn/Features/Limn+Dump.swift:576 | the trimmed separator is a slice of the original with only whitespace around it, and neither starts nor ends with whitespace |
| Rendering.TrimmedFacts | Sources/Limn/Features/Limn+Dump.swift:576 | the slice kept by trimming sits right after the leading whitespace, only whitespace follows it, and its ends are not whitespace |
| Rendering.DefaultSeparatorTrimmed | Sources/Limn/Features/Limn+Dump.swift:576 | the default element separator `, ` becomes `,` on broken lines |
| Rendering.FlatWithinWidth | Sources/Limn/Features/Limn+Dump.swift:196-216 | the one-line text of a token is never longer than the width computed for it (deleted and filtered tokens print nothing) |
| Rendering.FlatFromWithinWidth | Sources/Limn/Features/Limn+Dump.swift:566-571 | the one-line text of the remaining children of a group is never longer than their summed widths and separators |
| Rendering.PrintNarrow | Sources/Limn/Features/Limn+Dump.swift:553-593 | a token whose width fits in what is left of a positive-width line is appended to the line as its one-line text and writes nothing to the stream |
| Rendering.PrintNarrowGroup | Sources/Limn/Features/Limn+Dump.swift:561-571 | a group that fits in what is left of the line is printed on that line as prefix, children joined by the separator, suffix |
| Rendering.PrintNarrowPair | Sources/Limn/Features/Limn+Dump.swift:586-589 | a pair that fits is printed on the line as its first part, separator and second part |
| Rendering.PrintFlatNarrow | Sources/Limn/Features/Limn+Dump.swift:566-570 | printing the remaining children of a group on one line, when they fit, writes nothing and appends their one-line text |
| Rendering.GroupLayout | Sources/Limn/Features/Limn+Dump.swift:561-584 | a group stays on the current line exactly when it has no children or the line width is positive and the whole group fits in what is left of the line; otherwise it writes at least one line break |
| Rendering.RenderNarrow | Sources/Limn/Features/Limn+Dump.swift:596-599 | a token that fits a positive line width renders as its one-line text followed by the terminator |
| Rendering.PrintFlatIgnoresDeleted | Sources/Limn/Features/Limn+Dump.swift:566-570 | replacing a deleted child of a one-line group by another deleted token does not change what is printed: deleted children are skipped |
| Rendering.PrintBrokenIgnoresDeleted | Sources/Limn/Features/Limn+Dump.swift:577-582 | replacing a deleted child of a broken group by another deleted token does not change what is printed |
| Rendering.SplitLines | Sources/Limn/Features/Limn+Dump.swift:642 | splitting on line breaks yields only non-empty pieces without a line break |
| Rendering.SplitJoin | Sources/Limn/Features/Limn+Dump.swift:642-649 | splitting lines that are non-empty and break-free after joining them with line breaks gives them back |
| Rendering.SplitKeepsText | Sources/Limn/Features/Limn+Dump.swift:642 | splitting loses only the line breaks: the pieces concatenated are the text without its breaks |
| Rendering.LineTraceFirst | Sources/Limn/Features/Limn+Dump.swift:619-634 | while lines remain, the next step is a removal exactly when the old cursor is removed, and an insertion exactly when it is not but the new cursor is inserted |
| Rendering.RemovalsFirst | Sources/Limn/Features/Limn+Dump.swift:621-629 | in the printed diff an inserted line is never directly followed by a removed line: removals at a position come first |
| Rendering.MarkedLine | Sources/Limn/Features/Limn+Dump.swift:625 | marking a single line with a prefix puts the prefix in front of it |
| Rendering.MarkedSides | Sources/Limn/Features/Limn+Dump.swift:619-637 | reading back the lines marked removed or unchanged gives the old side of the trace, and the lines marked inserted or unchanged give the new side |
| Rendering.ApplyDiffSides | Sources/Limn/Features/Limn+Dump.swift:611-638 | with distinct markers, the lines of the diff output read as removed or unchanged are exactly the old lines, and those read as inserted or unchanged are exactly the new lines |
| Rendering.LineStepsFrom | Sources/Limn/Features/Limn+Dump.swift:619-635 | when no input line holds a line break, no step of the trace does either |
| Rendering.StringDumpSides | Sources/Limn/Features/Limn+Dump.swift:265-271 | the dump of a diffed value, split into lines, reads back as the dump of the original value on one side and of the updated value on the other |
| Rendering.MarkedLinesSplit | Sources/Limn/Features/Limn+Dump.swift:648-649 | every line of the diff output is non-empty and free of line breaks, so joining and re-splitting it is lossless |
| Rendering.LineStepsNonEmpty | Sources/Limn/Features/Limn+Dump.swift:619-635 | when no input line is empty, no step of the trace carries an empty line |
| Summaries.HalfQuotient | Sources/Limn/Features/Limn+Dump.swift:480 | half the item limit rounded toward zero: for a non-negative limit twice the quotient is at most the limit and within one of it, for a negative limit the mirror image |
| Summaries.HalfRemainder | Sources/Limn/Features/Limn+Dump.swift:480 | the remainder completes the limit to twice the quotient plus itself, lies strictly between -2 and 2 and takes the sign of the limit |
| Summaries.SkippedExactly | Sources/Limn/Features/Limn+Dump.swift:480-483 | with a non-negative limit a child is beyond the limit exactly when it is neither among the first half (rounded up) nor the last half (rounded down) of the limit |
| Summaries.NegativeLimitSkipsAll | Sources/Limn/Features/Limn+Dump.swift:480-483 | with a negative limit every child is beyond it |
| Summaries.LeadingMarked | Sources/Limn/Features/Limn+Dump.swift:437-441 | the length of the marked block at the front: every child in it is marked and the next one, if any, is not |
| Summaries.LeadingMarkedUnique | Sources/Limn/Features/Limn+Dump.swift:437-441 | any block at the front that is all marked and ends at an unmarked child or the end is the leading block |
| Summaries.RunsFirst | Sources/Limn/Features/Limn+Dump.swift:435-443 | a non-empty list of children gives entries that start with a run exactly when the first child is marked |
| Summaries.RunsShape | Sources/Limn/Features/Limn+Dump.swift:428-446 | the runs and kept children stand for exactly the marks: each kept child for one unmarked position, each run for as many marked positions as its length |
| Summaries.RunsKeeps | Sources/Limn/Features/Limn+Dump.swift:494-498 | the children left in place are exactly the unmarked ones, in order |
| Summaries.RunsFiltered | Sources/Limn/Features/Limn+Dump.swift:495-497 | the filtered counts of all runs add up to the number of children that are both collapsed and filtered |
| Summaries.RunsSized | Sources/Limn/Features/Limn+Dump.swift:437-441 | every run holds at least one child and counts no more filtered children than it holds |
| Summaries.RunsSeparated | Sources/Limn/Features/Limn+Dump.swift:437-441 | no run directly follows another: runs are maximal |
| Summaries.RunsSpec | Sources/Limn/Features/Limn+Dump.swift:428-446 | the runs stand for exactly the marks, keep exactly the unmarked children, count exactly the marked filtered ones, and are non-empty and maximal |
| Summaries.RunsUnmarkedPrefix | Sources/Limn/Features/Limn+Dump.swift:435-443 | unmarked children at the front are kept one by one ahead of the entries for the rest |
| Summaries.RunsMarkedBlock | Sources/Limn/Features/Limn+Dump.swift:437-441 | a leading block of marked children ending at an unmarked child or the end becomes a single run of its length |
| Summaries.RunsNoneMarked | Sources/Limn/Features/Limn+Dump.swift:435-443 | with nothing marked every child is kept |
| Summaries.RunsMarkedBlockAt | Sources/Limn/Features/Limn+Dump.swift:437-441 | a marked block starting at a given position becomes one run counting its length and its filtered children |
| Summaries.RunsThreeBlocks | Sources/Limn/Features/Limn+Dump.swift:428-446 | unmarked, then marked, then unmarked children become the leading children kept, one run, and the trailing children kept |
| Summaries.SummaryToken | Sources/Limn/Features/Limn+Dump.swift:448-476 | the stand-in for a collapsed run is always a plain value |
| Summaries.RunSummary | Sources/Limn/Features/Limn+Dump.swift:448-476 | a run reports its length as skipped (no diffs) or unchanged (diffs), alone when none is filtered, reports only the filtered count when all are filtered, and reports both otherwise |
| Summaries.DefaultRunSummary | Tests/LimnTests/Tests/FeaturesTests/LimnDumpTests.swift:335-365 | with the default symbols a run reads `… (N more)`, `… (F filtered)` or `… (N more with F filtered)` |
| Summaries.SummarizeSpec | Sources/Limn/Features/Limn+Dump.swift:478-515 | a group's summary collapses exactly its marked children, into maximal runs whose filtered counts add up to the marked filtered children, and keeps the rest in order |
| Summaries.KeepsFrom | Sources/Limn/Features/Limn+Dump.swift:494-498 | every kept entry holds one of the group's own children |
| Summaries.Process | Sources/Limn/Features/Limn+Dump.swift:517-536 | after processing no diff token with a side is left anywhere in the tree |
| Summaries.ProcessEntries | Sources/Limn/Features/Limn+Dump.swift:524-527 | one processed token per entry, none holding a diff with a side |
| Summaries.RootFiltered | Sources/Limn/Features/Limn+Dump.swift:521-522 | a filtered value at the root is written `… (1 filtered)`; see also Tests/LimnTests/Tests/FeaturesTests/LimnDumpTests.swift:316-333 |
| Summaries.SkipMiddle | Tests/LimnTests/Tests/FeaturesTests/LimnDumpTests.swift:230-273 | a group without diffs or filtered children and longer than the limit keeps its first half (rounded up) and last half (rounded down) of the limit and collapses everything between into one run of the excess length |
| Summaries.WithinLimit | Sources/Limn/Features/Limn+Dump.swift:480-499 | a group without diffs or filtered children and within the limit is kept unchanged |

## Left out

- Reflection and tree production (`Limn+Swift.swift`, `Limn+ObjC.swift`, `Limn+Reflection.swift`, the ivar listing of `ObjCRuntime.swift`) are not part of this model. They read process memory through Mirror and the Objective-C runtime; the model takes trees as given.
- Storage, the JSON codec and the standard-output stream are I/O. Only the string form of a dump is modelled, and its terminator is a parameter.
- Customisation shims and platform conformances (`CustomLimnRepresentable`, the built-in UIKit/AppKit/SwiftUI conformances, `LazyBox`) are thin wrappers over platform types and are not modelled.
- The `LIKE` pattern matcher of value filtering is a function parameter, because it is Foundation's predicate engine.
- The `NSString.compare` comparator and the per-process seeded `hashValue` used in comparison strings are parameters: the comparator is a function returning a comparison result, and hashes are an uninterpreted key function.
- `String(format:)` templates are modelled as functions from their arguments to text. Only the default symbols are spelled out, and only `%d` of a natural or an integer is rendered.
- The Myers algorithm inside `CollectionDifference` is not modelled. The edit script is a parameter that must be valid for the two sequences (offsets in range, and the kept elements pair up equal).
- Swift `Set` and `Dictionary` iteration order depends on hashing. Where the original iterates one (set elements present on both sides, labels and keys present on one side), the model uses first-occurrence order of the input.
- `Dictionary(uniqueKeysWithValues:)` traps on duplicate keys or labels. The model looks up the first match instead, and lemmas that need uniqueness require it.
- Force-unwrap traps in the type-encoding parser become `None` results. `assertionFailure` paths (a summary with no entry, a summary with three entries) return the release-build value.
- Swift `Character` is a grapheme cluster; the model uses `char`, so counts and widths are in code points. The word characters of the type-name patterns are ASCII only, and whitespace is the set the model defines.
- The regular expressions in `Limn+Format.swift` are replaced by hand-written decompositions with the same match condition and capture groups.
- The `hasDiff:` argument of `process` is only passed down and never decides anything, so it is dropped.
- The `Double` subscript is left out because it formats floating-point numbers. The `Optional<Limn>` convenience subscripts only lift the lookup through an optional and are left out.
- Sorting uses an insertion sort. The order it gives to elements the comparator ties is fixed here, while the standard library leaves it open.
- Extensions.Indented: the debug-build `assert(count >= 0)` (Sources/Limn/Utils/SwiftExtensions.swift:59) is not modelled. A count of 0 or less returns the string unchanged, as the guard on lines 60-62 does in release builds.
- DumpTokens.Width and DumpTokens.Fits carry no contract of their own; their properties are stated by `DumpTokens.GroupFits`, `Rendering.FlatWithinWidth` and `Rendering.PrintNarrow`.
- Integer widths: element counts and offsets are unbounded integers. Only decimal parsing of lookup keys models the 64-bit `Int` range, because the original rejects larger numbers there.
