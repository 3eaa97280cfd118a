# Debian dependency analysis, modelled in Dafny

The modelled program finds the dependencies of a Debian package. It reads the package's direct
dependencies from the text of a `Packages` index, whose stanzas are made of `Package:` and
`Depends:` fields. In test mode it reads them from a fixed demonstration table or from an
offline file of `name: dep, dep` lines. From the root package it builds the dependency graph
breadth first. The walk is cut off at a maximum depth and at packages whose name holds a filter
substring. Finally it answers reverse queries: which packages depend on a target. It answers
them either from the graph it built or by scanning the whole index.

The model covers all of this once the index text or the offline file is in hand.

| file | module | models |
|---|---|---|
| `strings.dfy` | `Strings` | the Python `str` operations the program relies on: `strip()`, `split`, `in`, `<`; a `join` is defined only to state the round trip of `split` |
| `collections.dfy` | `Collections` | duplicate-free and sorted lists: the `list(set(...))` and `sorted(...)` of the program |
| `clauses.dfy` | `Clauses` | the rule that extracts a bare package name from one `Depends:` clause, which the parser and the full-index scan share |
| `index_parser.dfy` | `IndexParser` | `parse_package_dependencies` |
| `graph.dfy` | `DependencyGraph` | the graph dict, with its keys in insertion order |
| `graph_builder.dfy` | `GraphBuilder` | `build_dependency_graph_bfs`, as a method with a `while` loop over the queue |
| `test_mode.dfy` | `TestMode` | `get_test_dependencies` and the parsing in `test_mode_parse_dependencies` |
| `reverse_resolver.dfy` | `ReverseResolver` | `find_reverse_dependencies` and the scan of `find_reverse_dependencies_advanced` |

The scanning loops of the source are methods with loop invariants:
- the parser's line loop;
- the walk's queue loop and its enqueue loops;
- the graph-local reverse lookup;
- the full-index scan;
- the offline-file loop.

Four of these loops are proved against a recursive function that describes what the loop
computes:
- the parser's line loop;
- the graph-local reverse lookup;
- the full-index scan;
- the offline-file loop.

The properties the program promises are then proved as lemmas about those functions. The walk's
queue loop is proved against an invariant instead, which is described next.

The walk's loop invariant records, for every key of the graph, the depth at which it was first
dequeued. It says:
- every key got the entry the cut-offs prescribe;
- every key was reached from a key one level up;
- depths in the queue never decrease;
- every listed dependency is a key or still waits in the queue, at most one level down.

Termination is proved with the measure (names not yet visited, queue length). The names are
drawn from a finite universe: the test table, or the names the index mentions.

## Model

| member | source | states |
|---|---|---|
| `Strings.Strip` | main.py:132 | `str.strip()`: the result has no whitespace at either end, is no longer than the input and uses only its characters |
| `Strings.StripAll` | main.py:391 | `line.strip()` for every line, and `dep.strip()` for every part at main.py:297: as many strings, each the `strip()` of the one in its place |
| `Strings.StripAllStripped` | main.py:297 | every string it gives has no whitespace at either end |
| `Strings.StripExact` | main.py:132 | `str.strip()` is the slice of the input left after removing whitespace from both ends: everything cut off before and after it is whitespace |
| `Strings.StripFixedPoint` | main.py:132 | stripping changes a string exactly when it has whitespace at an end |
| `Strings.BeforeFirst` | main.py:135 | `s.split(sep)[0]` is a prefix of `s`; it is all of `s` when `sep` does not occur, and otherwise the cut is at the first occurrence: `sep` follows the prefix and starts nowhere inside it |
| `Strings.Split` | main.py:114 | `s.split(c)` gives at least one part, and no part holds `c` |
| `Strings.JoinSplit` | main.py:114 | joining the parts of `s.split(c)` with `c` gives back `s`, so splitting loses nothing |
| `Strings.SplitJoin` | main.py:130 | splitting a text joined from `c`-free parts gives back the parts |
| `Strings.LessIrreflexive` | main.py:420 | Python's string order used by `sorted`: no string is below itself |
| `Strings.LessTransitive` | main.py:420 | the same order is transitive |
| `Strings.LessTotal` | main.py:420 | any two different strings are ordered one way or the other |
| `Collections.Distinct` | main.py:145 | `list(set(...))`: no duplicates, and the same elements as the input |
| `Collections.SortedDistinct` | main.py:420 | `sorted(list(set(...)))`: strictly sorted, with the same elements as the input |
| `Clauses.ContainsSomewhere` | main.py:134 | `sub in s` holds exactly when `sub` starts at some position of `s` |
| `Clauses.ClauseName` | main.py:131-139 | a clause's name is stripped and made of the clause's characters; it has no blank unless the clause holds `" ("` |
| `Clauses.ClauseNames` | main.py:131-139 | the names of a list of clauses are non-empty and stripped, at most one per clause |
| `Clauses.ClauseNamesMembers` | main.py:131-139 | a name is extracted exactly when it is the non-empty name of some clause: an empty name drops only its own clause, so `a, , b` gives both `a` and `b` |
| `Clauses.DependsNames` | main.py:128-139 | every name taken from a `Depends:` value is non-empty, stripped and free of commas |
| `Clauses.TokenClauseName` | main.py:136-137 | a clause that is a bare name, such as `x(>=1)`, gives itself |
| `Clauses.ConstrainedClauseName` | main.py:134-135 | `name (constraint)` gives `name`, so `C (>= 2.0)` gives `C` |
| `Clauses.RenderedClauseName` | main.py:131-139 | the clause written for any dependency, with or without a version constraint, gives back its name |
| `Clauses.LeadingBlankIgnored` | main.py:132 | a blank before any clause, such as the one after the separating comma, does not change its name |
| `Clauses.DependsRoundTrip` | main.py:128-139 | reading back a `Depends:` value written from a list of dependencies gives their names, all of them and in order |
| `Clauses.ClauseNameAtMarker` | main.py:134-135 | when the stripped clause has its first `" ("` at position `k`, the name is the stripped text of positions before `k` |
| `Clauses.ClauseNameAtBlank` | main.py:136-137 | when the stripped clause has no `" ("` and its first blank is at position `k` (or it has none and `k` is its length), the name is the stripped text of positions before `k` |
| `Clauses.AlternativesWithoutConstraint` | main.py:136-137 | two alternatives joined by a bar and no version constraint give the first alternative |
| `Clauses.AlternativesBeforeConstraint` | main.py:134-135 | two alternatives joined by a bar and followed by a version constraint give both alternatives with the bar: the list is not taken apart |
| `IndexParser.OpensStanzaExactly` | main.py:120 | a stanza opens only at the line `Package: <name>` itself, so a name that is a prefix or part of another never matches |
| `IndexParser.LineDeps` | main.py:126-139 | the names on a `Depends:` line are non-empty, stripped and free of commas |
| `IndexParser.Collect` | main.py:118-142 | what the scan collects is non-empty and stripped, and comes from the index's `Depends:` lines |
| `IndexParser.ParsePackageDependencies` | main.py:108-152 | the method returns a duplicate-free list of non-empty stripped names whose set is exactly what the line scan collects |
| `IndexParser.NoStanzaNoDeps` | main.py:118-122 | with no line `Package: <name>`, nothing is collected |
| `IndexParser.InStanza` | main.py:125-142 | inside the stanza, every `Depends:` line up to the next `Package:` line is collected, and several lines accumulate |
| `IndexParser.StanzaCollected` | main.py:118-142 | with the stanza opened once, the result is exactly the names of that stanza's body |
| `IndexParser.CollectAt` | main.py:118-142 | the same, for a stanza opened at line `k` and at no other line |
| `IndexParser.CollectDeclared` | main.py:118-142 | every collected name is listed in a stanza of the package |
| `DependencyGraph.Graph.Put` | main.py:248 | `graph[name] = list` sets the list; a new key goes last and an existing key keeps its place |
| `DependencyGraph.Single` | main.py:195 | the seeded graph `{root: initial}` |
| `GraphBuilder.Unvisited` | main.py:251-253 | the queued items are exactly the unvisited dependencies, each at the given depth |
| `GraphBuilder.Enqueue` | main.py:251-253 | the loop appends the unvisited dependencies in order and keeps the queue before them |
| `GraphBuilder.CutOffs` | main.py:226-235 | in the graph the walk returns, every key but the root that was reached at or beyond the depth limit lists nothing, and so does every key whose name holds a non-empty filter; every other key below the limit has its looked-up list |
| `GraphBuilder.PackageEntry` | main.py:226-248 | an empty list at or beyond the depth limit; otherwise an empty list when a non-empty filter occurs in the name; otherwise the test table's or the parser's list |
| `GraphBuilder.Visit` | main.py:223-253 | the first visit marks the head visited, records its entry and queues its unvisited dependencies one level down |
| `GraphBuilder.InitStep` | main.py:195-204 | the seeded graph and the initial items at depth 1 satisfy the walk's invariant |
| `GraphBuilder.SkipStep` | main.py:217-221 | dropping a head that was already visited, with the graph and `visited` unchanged, keeps the walk's invariant |
| `GraphBuilder.VisitStep` | main.py:217-253 | a first visit keeps the invariant and adds one visited name from the finite universe |
| `GraphBuilder.VisitOrdered` | main.py:217-253 | first in, first out: after the head leaves and its dependencies are appended one level down, depths in the queue stay non-decreasing, span at most two levels and are not below any recorded depth |
| `GraphBuilder.LookedUpInUniverse` | main.py:241-246 | every looked-up name lies in the universe: the test table's names or the index's `Depends:` names |
| `GraphBuilder.WalkResult` | main.py:216-258 | when the queue is empty, every listed dependency is a key, at most one level below its lister |
| `GraphBuilder.DepthBound` | main.py:226-229 | no key lies deeper than depth 1 or the depth limit |
| `GraphBuilder.BuildDependencyGraph` | main.py:186-260 | a failed download leaves `{root: initial}`; the root stays first with its initial list; every other key has the entry its depth and the cut-offs prescribe and was reached from a key one level up; without a failed download the graph is closed; the keys are in first-visit order, so their depths never decrease along the key order |
| `GraphBuilder.VisitKeysByDepth` | main.py:217-248 | first in, first out: a package visited for the first time becomes the last key, at a depth no smaller than that of any key before it |
| `TestMode.TestDependencies` | main.py:262-276 | a name outside the table gets `[]`; a listed name has no duplicates and sorts after the package, so the table has no cycle |
| `TestMode.TestDependenciesNamed` | main.py:266-275 | the table lists only the names `A` to `R` |
| `TestMode.NonEmpty` | main.py:298 | every kept part is non-empty and is one of the parts, every non-empty part is kept, and a list with no empty part is kept whole |
| `TestMode.NonEmptyCounts` | main.py:298 | as a multiset the result is the parts with every empty part removed: each non-empty part is kept as many times as it occurs |
| `TestMode.NonEmptyInOrder` | main.py:298 | the kept parts keep their order: they form a subsequence of the parts |
| `TestMode.EntryDeps` | main.py:297-298 | the dependency names of an entry are non-empty, stripped and free of commas |
| `TestMode.LineEntry` | main.py:293-298 | a line holds an entry exactly when its stripped text has a colon; the name stops at the first colon |
| `TestMode.OfflineTable` | main.py:289-298 | every list in the table holds non-empty, stripped, comma-free names |
| `TestMode.ParseOfflineFile` | main.py:288-307 | an unreadable file gives `{}` and `[]`; otherwise the method returns the table of the whole file, and the start package's list or `[]` when it has no entry |
| `TestMode.OfflineKeys` | main.py:292-298 | a name is a key exactly when some line holds an entry for it, so blank and colon-free lines add nothing |
| `TestMode.OfflineLastWins` | main.py:298 | the last line holding an entry for a name decides its list |
| `TestMode.EntryRoundTrip` | main.py:293-298 | reading back a line written as `name: d1, d2`, or as `name: ` for a package with no dependencies, gives the name and the list, because the split happens at the first colon only |
| `TestMode.EmptyEntryRoundTrip` | main.py:293-298 | the line `name: ` reads back as the name with an empty list: `strip()` drops the trailing blank and nothing follows the colon |
| `ReverseResolver.KeysNamingMembers` | main.py:365-368 | the loop keeps a key exactly when its list names the target |
| `ReverseResolver.KeysNamingOrdered` | main.py:365-368 | the kept keys are in the graph's key order: a subsequence of the keys |
| `ReverseResolver.KeysNamingNoDups` | main.py:365-368 | duplicate-free keys give a duplicate-free result |
| `ReverseResolver.ReverseDependenciesInGraph` | main.py:356-371 | the method returns what the key loop keeps, and so exactly the keys whose list names the target, without duplicates and in the graph's key order |
| `ReverseResolver.Scan` | main.py:388-417 | the names the scan reports are never empty: a stanza whose `Package:` value is empty is not reported |
| `ReverseResolver.ReverseDependenciesFromIndex` | main.py:380-423 | no index text gives `[]`; otherwise the result is strictly sorted and its set is what the scan reports |
| `ReverseResolver.FromIndexDetermined` | main.py:420 | the sorted answer is determined by the index text: two strictly sorted lists of the same dependents are equal |
| `ReverseResolver.ScanFinds` | main.py:388-417 | the scan reports a package exactly when one of its stanzas lists the target, the last stanza included, or when the open stanza does |
| `ReverseResolver.LeadingDependsIgnored` | main.py:386-400 | `Depends:` lines before the first `Package:` line never make a package count |
| `ReverseResolver.PlainLine` | main.py:391 | on a plain line, `strip()` changes nothing either scan looks at |
| `ReverseResolver.DependentsDeclare` | main.py:384-420 | on an index of plain lines, a package is found exactly when one of its stanzas lists the target |
| `ReverseResolver.ParsedDependencyFound` | main.py:384-420 | on plain lines, every package whose parsed dependencies name the target is found |
| `ReverseResolver.DeclaredParsed` | main.py:114-142 | when no `Package:` line repeats, a stanza listing the target is the one the parser reads |
| `ReverseResolver.ScanAgreesWithParser` | main.py:384-420 | on plain lines with no repeated `Package:` line, a package is found exactly when the target is among its parsed dependencies |

## Left out

- Downloading the index: gzip, UTF-8 decoding and the network timeout are not modelled. The fetched text is an `Option<string>` input, and `None` stands for every failure.
- Reading the offline file: the content is an `Option<string>` input, and `None` stands for a missing or unreadable file.
- The `print` logging, configuration loading and validation, and the stage drivers are not modelled. The driver's use of only the root's list from the offline table is not modelled either.
- The `try/except` around a lookup: a lookup cannot fail in the model, so its "record `[]`" branch never runs.
- IndexParser.ParsePackageDependencies: states the result as a duplicate-free list and its set, not its order, because Python leaves the order of `list(set(...))` open.
- GraphBuilder.BuildDependencyGraph: `max_depth >= 1` is not required, because the loop itself handles any limit; the depth record is ghost state that the source does not keep.
- ReverseResolver.ScanAgreesWithParser: proved only for indexes whose lines are plain and whose `Package:` lines do not repeat. Outside those conditions the two scans read lines differently: one strips lines and the other does not, and the parser reads only the first stanza of a repeated name.
- Version constraints and `|` alternatives are not evaluated, as in the source: they are only cut off as text.
- Behaviour of the code that a reader might not expect, and that the model keeps:
  - the code cuts a clause at `" ("` and not at a bare `(`, so `x(>=1)` stays whole;
  - the code keeps no separate "already queued" set: the visited check at dequeue absorbs duplicate queue items;
  - the code records a package reached at the depth limit with an empty list: with root `A`, initial list `[B, C]`, depth limit 2 and `B` listing `D`, the result holds `D: []`, because `D` is first dequeued at depth 2;
  - the full-index scan recognises only `Package:` and `Depends:` lines, so over the offline `name: deps` format it finds nothing.
