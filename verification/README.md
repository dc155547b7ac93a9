# Verified models of the simulation tooling

This Dafny 4.11 project models the algorithmic cores of the tooling around the ns-3 congestion-control
experiments and proves what they are relied upon for. `dafny verify dfyconfig.toml` checks all of it.

| file | models |
|---|---|
| `TypePaths.dfy` | `StaticInformation`, the depth-first search for configuration paths (utils/print-introspected-doxygen.cc) |
| `LoadOrder.dfy` | the level-by-level dependency sort of shared libraries (bindings/python/ns__init__.py) |
| `Rename.dfy` | bulk renaming, deepest first, of a directory tree (rename.js) |
| `Json.dfy`, `JsonLayout.dfy` | the CPython-compatible JSON printer, a decoder written from RFC 8259, and what indentation adds (lib/json.js) |
| `Csv.dfy` | the minimal-quoting CSV writer, the character machine that reads it, and `writeAndVerifyCsv` (lib/csv.js, docs/plots/main.js) |
| `Cli.dfy` | the command-line parser (lib/cli.js) |
| `WorkerPool.dfy`, `TestTally.dfy` | the test runner's threads, queues, signal flag and counters (test.py) |
| `LineEndings.dfy`, `ConversionPool.dfy` | CRLF conversion of a buffer, and the threads that share a cursor (clrf-to-lf.js) |
| `TabCheck.dfy` | the tab check and its guard lines (utils/check-style-clang-format.py) |
| `Timeline.dfy` | binary searches over ranges and events (utils/grid.py) |
| `Statistics.dfy`, `Welford.dfy`, `FlowKpi.dfy`, `RealKpi.dfy` | totals and the Jain index (lib/stats.js, lib/flowmonitor.js), online moments (utils/bench-scheduler.cc), the two KPI computations (lib/flowmonitor.js), the selection of complete runs (main.js) |
| `JsText.dfy`, `Permutations.dfy`, `Wrappers.dfy` | JavaScript strings as UTF-16 code units with their order; counting in lists; optional values |

Code that changes things step by step is imperative here too: classes with the fields the source updates, loops with
invariants. Each such method is tied to a specification function or relation, and the lemmas are about that one.
The two thread pools are state machines whose steps interleave in any order. JavaScript strings are sequences of
UTF-16 code units where surrogates matter; C++ doubles and JavaScript numbers are exact reals or integers.

## What is proved, and where code and documentation part

- `Gather` records one entry for every simple labelled path from its root, once each, in strict preorder. The
  measure of the recursion is the number of types that are not on the stack. The list documented as the types
  already processed holds only the types on the current stack, so a type is recorded once for every path to it.
- `dependency_order` terminates exactly for dependency maps that are closed and acyclic; there, a module is loaded by
  call `k` exactly if its longest dependency chain has `k` links.
- Renaming deepest first finds every source where it was planned, overwrites nothing, and loses no node. `applyLiteral`
  is documented as a literal replacement, but `replaceAll` expands `$$`, `$&`, `` $` `` and `$'` in a target. A rule is
  literal exactly if its target, read from the left, refers to nothing around the match and is what it makes of a name
  that is the source itself; a target is literal for all sources exactly if it holds no such pattern. A dry run looks at
  the original tree only: it answers for a plan like a real run exactly if no earlier rename took the plan's free
  target, or freed its taken one for good.
- The JSON printer's output reads back as the value but for key order, at every depth, and is pure ASCII. Two values
  whose objects have no key twice print alike exactly if they are the same but for key order, where undefined counts as
  absent in an object and as null elsewhere. Indented text is the compact text laid out anew. The order of keys is CPython's except exactly when, at the first
  difference, an astral code point is overtaken: by one of U+E000 to U+FFFF, or by a lone surrogate above its own
  high one, or by that very one when one of U+E000 to U+FFFF follows it.
- A built CSV document parses back exactly if no written record is a single empty cell, or there are no rows. Only then
  is a second write of the same table reported as "identical".
- A command with written options around it is recovered exactly if no list option stands directly in front of it; such a
  list takes it, as the values that its commas separate. The parser says that the command is always the first positional;
  it also accepts it later, and then the command's own defaults apply exactly if every flag whose own default differs
  from the general one is written anyway.
- In every interleaving of main, the workers and the signal, the test runner stops after a bounded number of steps,
  with every job collected once and every worker gone; exactly the jobs that are not to be skipped and are not handed
  back for the signal have been run, once each. The process may exit with 0 and still list failed jobs: exactly
  if a suite exits with 0 while its report is neither PASS nor SKIP.
- Stripping the CRs of CRLF pairs once need not leave a file without CRLF: `n` passes do exactly if no LF had more
  than `n` CRs directly before it. The dry-run count is the number of bytes one pass removes.
- A file fixed by the tab check passes it, and fixing it again changes nothing, though the fix may create guard lines.
- On disjoint ranges `get_ranges` returns exactly the overlapping ones if both ends hit a range; the exact condition
  for the remaining cases is `Precise`. It misses none if one end hits; if neither does it returns nothing, even with ranges
  in between.
- The two KPI computations agree on a document exactly if every id in its statistics that has a forward classifier entry
  has one as its last entry; distinct ids suffice. The fairness test of `buildRealKpi` can never reject a run.

## Model

| member | source | states |
|---|---|---|
| TypePaths.StaticInformation.constructor | utils/print-introspected-doxygen.cc:237-312 | a new collector has an empty stack, path and output |
| TypePaths.StaticInformation.RecordAggregationInfo | utils/print-introspected-doxygen.cc:318-334 | appends the pair of the types so named, or notes the first name that no registered type has |
| TypePaths.StaticInformation.GetCurrentPath | utils/print-introspected-doxygen.cc:343-350 | the path is every component with a slash before it |
| TypePaths.StaticInformation.RecordOutput | utils/print-introspected-doxygen.cc:352-355 | appends the type with the current path |
| TypePaths.StaticInformation.HasAlreadyBeenProcessed | utils/print-introspected-doxygen.cc:357-365 | true exactly for the types on the stack |
| TypePaths.StaticInformation.Get | utils/print-introspected-doxygen.cc:367-375 | the recorded paths of one type, in order |
| TypePaths.StaticInformation.Gather | utils/print-introspected-doxygen.cc:404-408 | appends the entries of a list that enumerates every simple walk from the root once, parents first; the stack and path are empty again; among them the root and each of its registered children |
| TypePaths.StaticInformation.DoGather | utils/print-introspected-doxygen.cc:410-482 | restores path and stack and appends the entries of the search below the stack; terminates as the types off the stack decrease |
| TypePaths.StaticInformation.GatherAttributes | utils/print-introspected-doxygen.cc:416-453 | the attribute loop follows the attribute edges in order, passing over pointers to Object |
| TypePaths.StaticInformation.GatherChildren | utils/print-introspected-doxygen.cc:454-464 | the child loop follows the edges to registered descendants in order |
| TypePaths.StaticInformation.GatherAggregates | utils/print-introspected-doxygen.cc:465-481 | the aggregation loop follows both directions of every recorded pair |
| TypePaths.StaticInformation.Follow | utils/print-introspected-doxygen.cc:434-439 | one push, search and pop leaves stack and path as they were and adds what lies below that edge |
| TypePaths.Graph.EdgesExactly | utils/print-introspected-doxygen.cc:416-481 | the edges out of a type, from the registry alone, with order and multiplicity: one for every attribute that leads on, then one for every registered child, then one for every aggregated pair the type is in |
| TypePaths.Graph.EdgeExactly | utils/print-introspected-doxygen.cc:416-481 | an edge leaves a type if and only if it is a pointer attribute not to Object under its name, a container attribute under its name and `/[i]`, a registered child or an aggregation partner under `$` and its name |
| TypePaths.Graph.DirectEntries | utils/print-introspected-doxygen.cc:404-482 | the root is recorded without a path, and the target of each of its edges under the name of that edge |
| TypePaths.Graph.ChildrenAreRecorded | utils/print-introspected-doxygen.cc:454-464 | every registered child of the root, other than itself, is recorded as `/$` and its name |
| TypePaths.RenderInTurn | utils/print-introspected-doxygen.cc:343-350 | a path of one component is a slash and the component, and longer paths are rendered part by part |
| TypePaths.PathsOfExactly | utils/print-introspected-doxygen.cc:367-375 | the paths of a type are those of its entries, in order and as often as recorded |
| TypePaths.Graph.RemainingDrops | utils/print-introspected-doxygen.cc:412-414 | pushing a registered type that is not on the stack lowers the number of types off the stack |
| TypePaths.Graph.SearchIsExact | utils/print-introspected-doxygen.cc:410-482 | a walk is met exactly if it follows edges, repeats no type and avoids the stack |
| TypePaths.Graph.SearchIsPreorder | utils/print-introspected-doxygen.cc:415-482 | walks are met in strict preorder, so none twice |
| TypePaths.Graph.SearchEnumerates | utils/print-introspected-doxygen.cc:404-408 | from an empty stack the search lists the simple walks, each once |
| TypePaths.Graph.EnumerationIsUnique | utils/print-introspected-doxygen.cc:404-482 | only one list enumerates the simple walks, so the output is determined |
| TypePaths.Graph.GatheredPaths | utils/print-introspected-doxygen.cc:367-375 | `Get` reports a path exactly if some simple walk ends in the type with these labels |
| TypePaths.Graph.SimpleWalksAreShort | utils/print-introspected-doxygen.cc:410-482 | a simple walk has fewer edges than there are types, so there are finitely many |
| LoadOrder.Loader.constructor | bindings/python/ns__init__.py:502-505 | the call starts with all modules pending and none loaded |
| LoadOrder.Loader.ModulesThatCanBeLoaded | bindings/python/ns__init__.py:462-475 | the pending modules all of whose dependencies are loaded, in order |
| LoadOrder.Loader.LoadStep | bindings/python/ns__init__.py:486-493 | the loop of one call, with its removals in place, takes the lists from call `n` to call `n + 1` |
| LoadOrder.Loader.DependencyOrder | bindings/python/ns__init__.py:477-500 | for closed acyclic maps the recursion terminates with nothing pending |
| LoadOrder.SortToDependencies | bindings/python/ns__init__.py:502-507 | all modules exactly once, every dependency strictly earlier, ordered by longest chain, and among equal chains as in the dictionary |
| LoadOrder.RunSplits | bindings/python/ns__init__.py:488-493 | after any number of calls pending and loaded modules split the input without duplicates |
| LoadOrder.Progress | bindings/python/ns__init__.py:484-500 | each call on a closed acyclic map loads at least one module |
| LoadOrder.StepIsLongestChain | bindings/python/ns__init__.py:477-500 | a module is loaded by call `k` exactly if its longest dependency chain has `k` links |
| LoadOrder.LoadedChainsAreShort | bindings/python/ns__init__.py:477-500 | what was loaded within `n` calls has no chain longer than `n` |
| LoadOrder.PendingHasLongChain | bindings/python/ns__init__.py:477-500 | what is pending after `n` calls starts a chain of `n` links |
| LoadOrder.TerminatesExactlyWhenAcyclic | bindings/python/ns__init__.py:477-500 | the recursion ends if and only if the map is closed and acyclic |
| LoadOrder.RunIsSorted | bindings/python/ns__init__.py:486-493 | at every call each loaded module follows its dependencies |
| LoadOrder.RunIsSortedByStep | bindings/python/ns__init__.py:502-507 | loaded modules stand in the order of their longest chains |
| LoadOrder.StepIsStable | bindings/python/ns__init__.py:462-493 | the modules of one call keep the order of the dictionary |
| LoadOrder.RunIsStable | bindings/python/ns__init__.py:502-507 | so do loaded modules with chains of one length; with the order by chains this determines the result |
| LoadOrder.FinishedRun | bindings/python/ns__init__.py:502-507 | flattening the steps of a finished run gives a sorted permutation |
| Rename.ApplyLiteral | rename.js:80-87 | the rules are applied in turn, empty sources skipped |
| Rename.RulesInTurn | rename.js:80-87 | two lists of rules applied after one another are their concatenation; one rule replaces unless its source is empty |
| Rename.ReplacedByItself | rename.js:73-87 | a source replaced by itself leaves the name |
| Rename.LeftmostMatches | rename.js:73-87 | matches are taken from the left and do not overlap: `aa` to `b` makes `ba` of `aaa` |
| Rename.LiteralExactly | rename.js:73-87 | one rule replaces literally in all names if and only if its target refers to nothing around the match and is its own substitution in the source |
| Rename.LiteralExactlyWithoutPatterns | rename.js:73-87 | a target serves all sources literally, in all names, if and only if it holds no `$` pattern |
| Rename.PatternsMayBeLiteral | rename.js:73-87 | the rules `$&` to `$&` and `$$&` to `$$$&` hold a pattern and are literal |
| Rename.PatternIsExpanded | rename.js:73-87 | the rule `foo` to `$&bar` turns `foo` into `foobar` |
| Rename.DeepestFirstSorts | rename.js:179-188 | the sort is a permutation with longer paths first |
| Rename.DeepestFirstIsStable | rename.js:179-188 | paths of one length keep their order |
| Rename.LengthIsOfText | rename.js:179-188 | the length is that of the path as text |
| Rename.BuildPlans | rename.js:219-232 | one plan for every path whose base name changes to a non-empty one, to that name in its directory, in order |
| Rename.PlansExactly | rename.js:219-232 | the same of the list of plans, position by position |
| Rename.PlannedExactly | rename.js:219-232 | a path is the source of a plan if and only if it is listed and its base name changes to a non-empty one |
| Rename.PlansArePlanned | rename.js:219-232 | plans from a deepest-first list of existing paths stay in their directory and descend |
| Rename.FileSystem.RenameSync | rename.js:250 | moves the path with everything below it; the tree stays rooted |
| Rename.FileSystem.Execute | rename.js:240-254 | every node ends at its original path with exactly the non-skipped components renamed, no two nodes on one path, the number of nodes kept; a dry run changes nothing |
| Rename.RenamePaths | rename.js:264-273 | the whole tool on the kept paths in any order: as `Execute`, with plans proved to be valid ones |
| Rename.RunRenamesExactly | rename.js:240-273 | in a real run a kept path whose name changes gets its new name if and only if that was free at its turn; no other path is renamed |
| Rename.CarriedOutExactly | rename.js:243-251 | a plan is carried out if and only if its target is free at its turn |
| Rename.SourceStaysPut | rename.js:179-188 | a path none of whose ancestors was renamed still denotes its node |
| Rename.TurnComes | rename.js:240-254 | at the turn of each plan its source still denotes the original node |
| Rename.RenameRebases | rename.js:250 | renaming one component rebases exactly the paths at and below it |
| Rename.MoveRelocates | rename.js:244-251 | a rename to a free target keeps every node at the path its renamed components give |
| Rename.TargetIsTakenExactly | rename.js:244 | at its turn a plan's target is taken if and only if it was there and has not been freed, or an earlier plan took it |
| Rename.DryRunAgreesExactly | rename.js:243-251 | a dry run answers for a plan like a real one if and only if no earlier plan took its free target, or freed its taken one for good |
| Rename.DryRunCounts | rename.js:243-253 | the dry run's count is that of a real run when no two plans share a target and no target is a source |
| Rename.DryRunMayOverstate | rename.js:243-253 | two files for one free target: two in the dry run, one in a real one |
| Rename.RunKeepsApart | rename.js:244-251 | no plan of any run puts two nodes on one path |
| Rename.PlacesCount | rename.js:240-254 | paths that stay apart are as many as the nodes |
| Json.EncodeString | lib/json.js:39-83 | the loop by code point writes the unit-by-unit escape of the string in quotes |
| Json.EncodeCodePoint | lib/json.js:42-80 | one pass writes one escape, or the two of a surrogate pair |
| Json.CodePointEscapes | lib/json.js:41-81 | escaping by code point equals escaping each UTF-16 unit, lone surrogates included |
| Json.PaddedHex | lib/json.js:73-76 | `toString(16).padStart(4, "0")` is the four-digit hexadecimal of the unit |
| Json.EscapesExactly | lib/json.js:30-82 | two characters for seven units, a lower-case hexadecimal escape for the others outside printable ASCII, none for the rest |
| Json.NoLeadingZero | lib/json.js:94-100 | no number but zero starts with a zero |
| Json.StringsReadBack | lib/json.js:39-83 | every escaped string is decoded to itself (RFC 8259, section 7) |
| Json.SortKeepsAll | lib/json.js:134-136 | sorting keeps every member as often as it is there |
| Json.NormalMembersAt | lib/json.js:134-136 | the normal form of an object holds exactly its defined members, each with its own normal form |
| Json.NormallyEqualIsSame | lib/json.js:115-137 | values with one normal form are the same but for key order |
| Json.SameIsNormallyEqual | lib/json.js:115-137 | values that are the same but for key order have one normal form |
| Json.ReadsBackAnywhere | lib/json.js:109-153 | at every level and indentation, in front of anything but a digit, the text is read as the same value but for key order |
| Json.RoundTrip | lib/json.js:109-153 | parsing the printed value gives its normal form, which is the same value but for key order at every depth, for every indentation |
| Json.DumpsNormal | lib/json.js:115-137 | a value prints like its normal form |
| Json.InsertionOrderIsInvisible | lib/json.js:134-136 | values that are the same but for key order, at any depth, print the same at every level and indentation |
| Json.SortBeforeRendering | lib/json.js:134-151 | filter, sort and then render gives the same members as rendering and then sorting |
| Json.PrintsAlikeExactlyWhenSame | lib/json.js:109-153 | two values without repeated keys print alike if and only if they are the same but for key order |
| Json.OutputIsPlain | lib/json.js:30-36 | the text is pure ASCII |
| JsonLayout.IndentationExactly | lib/json.js:109-153 | the text is the compact text laid out by a character machine: a new line behind opening brackets and commas and in front of closing ones, indented by the number of open brackets, a blank behind colons, and no other blanks; none at all without indentation |
| JsonLayout.LevelIsInvisible | lib/json.js:109-144 | without indentation the level does not matter |
| Json.KeyOrderIsCPythons | lib/json.js:103-136 | for all strings, lone surrogates included, the key order equals code point order except exactly where an astral code point is overtaken at the first difference |
| Json.KeyOrderDiffers | lib/json.js:103-136 | two keys on which it differs |
| JsText.LessIsTotal | lib/json.js:136 | the comparison of strings by code unit is a strict total order |
| Csv.BuildCsv | lib/csv.js:35-73 | the document of the header and the rows' cells, quoted where needed |
| Csv.ParseCsvRecords | lib/csv.js:103-168 | the loop computes the character machine's records without those of one empty cell |
| Csv.ParseCsv | lib/csv.js:82-94 | one row object for every record after the header; missing cells are empty |
| Csv.FieldReads | lib/csv.js:35-42 | a field, quoted or not, is read as its value when a delimiter or terminator follows |
| Csv.RawReads | lib/csv.js:124-163 | an unquoted field is read as it is if it holds no delimiter and no line feed, does not begin with a quote, and does not end with a carriage return in front of a line feed |
| Csv.QuotedExactly | lib/csv.js:35-42 | a field is quoted if and only if it holds the delimiter, a quote, a carriage return or a line feed |
| Csv.LastTerminatorIsOptional | lib/csv.js:165-166 | the last record needs no terminator |
| Csv.RowFromExactly | lib/csv.js:86-93 | a row has the columns of the header; each holds the cell in the last place of its name, or is empty |
| Csv.RowsFromExactly | lib/csv.js:82-93 | every record after the header becomes a row |
| Csv.WrittenExactly | lib/csv.js:62-71 | of a row the written columns are written, empty where it has none |
| Csv.RecordsReadBack | lib/csv.js:56-73 | every document reads back as its records, less those of one empty cell, for CRLF and LF |
| Csv.RoundTripExactly | lib/csv.js:56-94 | parsing what was built gives back the rows if and only if no record is one empty cell |
| Csv.FaithfulIsKept | lib/csv.js:167 | without such a record the filter keeps all |
| Csv.UnfaithfulIsShort | lib/csv.js:167 | with one, rows are lost |
| Csv.KpiFile.WriteAndVerifyCsv | docs/plots/main.js:217-268 | writes the table and reports created, a changed row count, or the number of changed rows |
| Csv.ReportExactly | docs/plots/main.js:253-267 | the report by numbers of rows: both of them if they differ, otherwise "identical" or the number of rows that differ in a written column |
| Csv.IdenticalExactly | docs/plots/main.js:222-267 | whatever the old text, "identical" is reported if and only if it has as many rows, with equal cells in every written column |
| Csv.IdenticalExactlyWhenEqual | docs/plots/main.js:253-267 | on a table written before, "identical" is reported exactly if the tables are equal |
| Csv.SecondWriteIsIdentical | docs/plots/main.js:211-268 | a second write is reported "identical" if and only if no record is one empty cell |
| Cli.ArgumentParser.constructor | lib/cli.js:56-67 | no option is declared |
| Cli.ArgumentParser.AddOption | lib/cli.js:76-79 | declares or redeclares one flag |
| Cli.ArgumentParser.ParseArguments | lib/cli.js:115-187 | terminates on every argument vector with the parse or the first error |
| Cli.ArgumentParser.ValuesFrom | lib/cli.js:163-170 | a list takes the tokens before the next one that starts with a dash |
| Cli.IntReadsBack | lib/cli.js:153-160 | the decimal text of an integer is parsed to it |
| Cli.IntExactly | lib/cli.js:153-160 | blanks in front, a plus sign, and what follows the digits do not matter |
| Cli.GroupsReadBack | lib/cli.js:162-175 | comma-separated groups are split into their items, and none looks like a flag |
| Cli.SplitExactly | lib/cli.js:175 | the parts hold no comma, and joined by commas are the text |
| Cli.ItemsExactly | lib/cli.js:175 | a list holds exactly the non-empty parts of its values |
| Cli.WrittenReadBack | lib/cli.js:131-182 | written options set their flags, in front of anything that does not continue a list |
| Cli.ArgumentsReadBack | lib/cli.js:115-187 | a command with options around it comes back with its defaults, its own if it is first, overridden by exactly the written options; a list directly in front takes it, as the values that its commas separate |
| Cli.CommandComesBackExactly | lib/cli.js:157-184 | the parse succeeds, and its command is the written one if and only if no list stands directly in front of it |
| Cli.OwnDefaultsApplyExactly | lib/cli.js:115-127 | command, own defaults and writings all come back if and only if the command is first, or no list stands directly in front of it and every flag whose own default differs from the general one is written |
| Cli.DefaultsExactly | lib/cli.js:119-127 | a flag starts with the command's own default, else with the general one, if it has one |
| Cli.RefusedExactly | lib/cli.js:135-170 | behind written options an undeclared dashed token is refused, and so is a flag without a value of its kind, each with its own error |
| Cli.WordsReadBack | lib/cli.js:135-141 | words that are no flags, a single dash among them, are the command and the remaining positionals in order |
| Cli.LastWritingWins | lib/cli.js:147-182 | every option is its last writing, or its default |
| Cli.OrderIsInvisible | lib/cli.js:131-182 | with every flag written once the order of the options does not matter |
| Cli.CommandDefaultsMayBeLost | lib/cli.js:116-127 | an instance that fails this condition: an option in front of the command changes the parse |
| Cli.CommandMayBeTaken | lib/cli.js:157-176 | an instance with a list in front: `--all a run` has no command and two values |
| WorkerPool.StepKeepsInv | test.py:1048-1130 | every step of every interleaving keeps jobs, sentinels, queue order and phases consistent |
| WorkerPool.StepConserves | test.py:1048-1130 | each dispatched job is always in exactly one place |
| WorkerPool.WorkerEffect | test.py:1048-1130 | what one step of a worker does to the queues; a job is marked interrupted only after the signal |
| WorkerPool.NoDeadlock | test.py:1899-1925 | in every reachable state that is not final, main or a worker can go on |
| WorkerPool.StepProgresses | test.py:1048-1130 | every step, the signal included, lowers a potential |
| WorkerPool.RunsAreBounded | test.py:1899-2079 | no interleaving takes more than 7 steps a job, 4 a processor and one |
| WorkerPool.CompleteRuns | test.py:1899-2079 | a run that cannot go on has joined all threads, collected each job exactly once, and used each sentinel; without a signal no job is interrupted |
| WorkerPool.StepAccounts | test.py:1058-1130 | every step keeps this count: the times a job was begun are those it is running or has come back uninterrupted, and no job to be skipped is running |
| WorkerPool.BegunExactly | test.py:1080-1118 | a job has been begun if and only if some worker was running it at some time of the run |
| WorkerPool.ResultsWereRun | test.py:1071-1130 | an uninterrupted result is of a job to be skipped or of one that has been begun; no job to be skipped is ever begun |
| WorkerPool.CompleteRunsRan | test.py:1058-1130 | a complete run has begun exactly the jobs that are not to be skipped and came back uninterrupted, each once; without a signal all that are not to be skipped |
| TestTally.Collect | test.py:1914-2071 | the loop's counters are the tallies of the jobs, and `failed_jobs` after its pushes and pops is the list of failures in order |
| TestTally.FailedExactly | test.py:1938-2065 | a job is listed as failed exactly if it ran and has a non-zero return code or a suite result other than PASS and SKIP |
| TestTally.FailedTimes | test.py:1938-2065 | it is listed once for its return code and once for its suite |
| TestTally.KindExactly | test.py:1922-1958 | return code 0 is a pass, 1 a failure, 2 a Valgrind error, any other a crash; skipped and interrupted jobs have none |
| TestTally.TallyIsNumber | test.py:1914-1958 | a counter is the number of jobs of its kind |
| TestTally.TalliesAddUp | test.py:1914-1958 | the six counters add up to the number of jobs |
| TestTally.ExitsZeroExactly | test.py:2209-2212 | the exit code is 0 exactly if every job passed or was skipped |
| TestTally.ExitCodeMissesExactly | test.py:2062-2065 | a run that exits with 0 lists failed jobs exactly if some suite exits with 0 but reports a failure |
| TestTally.QuietFailureExists | test.py:2062-2065 | such a run exists |
| TestTally.CollectedAreKnown | test.py:1922-1923 | whatever the interleaving, the collected results are of dispatched jobs |
| TestTally.CompleteRunsAddUp | test.py:1914-1958 | the counters of every complete run of the pool add up to `total_tests` |
| TestTally.CountersIgnoreScheduling | test.py:1914-1958 | without a signal every interleaving ends with the counters of a sequential run |
| LineEndings.FindCrOffsets | clrf-to-lf.js:126-139 | the offsets of exactly the CRs followed by LF, increasing |
| LineEndings.StripCr | clrf-to-lf.js:147-159 | the buffer without the bytes at the offsets |
| LineEndings.Convert | clrf-to-lf.js:168-179 | one pass drops as many bytes as the dry run counts and keeps all that is not CR; it changes nothing exactly if there is no CRLF |
| LineEndings.StrippedKeepsOthers | clrf-to-lf.js:142-159 | the subsequence of bytes other than CR is unchanged |
| LineEndings.LongestIsRun | clrf-to-lf.js:126-159 | the measure of a buffer is its longest run of CRs directly before an LF |
| LineEndings.PassShortens | clrf-to-lf.js:126-159 | one pass shortens the longest run by one |
| LineEndings.CleanAfterExactly | clrf-to-lf.js:126-159 | `n` passes leave no CRLF if and only if no LF had more than `n` CRs before it |
| LineEndings.OnePassIsNotEnough | clrf-to-lf.js:126-159 | CR CR LF still holds a CRLF after one pass |
| ConversionPool.StepKeepsInv | clrf-to-lf.js:192-206 | every claim and every conversion keeps each claimed file with exactly one worker |
| ConversionPool.RunKeepsInv | clrf-to-lf.js:192-206 | so does every schedule, and its length plus what is left is twice the files plus the workers |
| ConversionPool.CursorIsBounded | clrf-to-lf.js:194-195 | the cursor never exceeds the files plus the workers, so it does not wrap |
| ConversionPool.StepProgresses | clrf-to-lf.js:193-205 | every step lowers the potential by one |
| ConversionPool.CompleteRuns | clrf-to-lf.js:263-282 | under every schedule each file is converted exactly once and the cursor ends at the files plus the workers |
| ConversionPool.TotalsIgnoreScheduling | clrf-to-lf.js:275-293 | the merged files are a permutation of the list, so totals equal those of a single pass |
| TabCheck.TextFile.CheckTabs | utils/check-style-clang-format.py:639-705 | reports exactly whether no tab is in a guard or in a line with every off guard before it followed by an on guard, and with `fix` replaces the lines by the fixed ones, else leaves them |
| TabCheck.EnabledExactly | utils/check-style-clang-format.py:655-670 | formatting is enabled if and only if every off guard so far is followed by an on guard so far |
| TabCheck.CheckedExactly | utils/check-style-clang-format.py:663-676 | a line is checked if and only if it is a guard, or every off guard before it is followed by an on guard before it |
| TabCheck.UnguardedFile | utils/check-style-clang-format.py:655-685 | a file without guards passes if and only if it has no tab, and a fix expands every line |
| TabCheck.TabsBetweenGuards | utils/check-style-clang-format.py:57-58 | a tab in front becomes four blanks, before and behind a guarded region but not in it |
| TabCheck.StripExactly | utils/check-style-clang-format.py:665 | stripping takes away the white space in front and behind and nothing else |
| TabCheck.ExpansionKeepsColumn | utils/check-style-clang-format.py:685 | expanding a text leaves the column after it |
| TabCheck.CharactersKeepColumn | utils/check-style-clang-format.py:685 | every character other than a tab is kept, at its display column |
| TabCheck.ExpansionKeepsInk | utils/check-style-clang-format.py:685 | the characters other than white space are unchanged |
| TabCheck.GuardsSurvive | utils/check-style-clang-format.py:664-685 | a guard line stays the guard line it is |
| TabCheck.ExpansionMayMakeAGuard | utils/check-style-clang-format.py:664-685 | a line that becomes a guard by expansion |
| TabCheck.CheckedBefore | utils/check-style-clang-format.py:672-676 | wherever checking is on after a fix it was on before |
| TabCheck.FixIsStable | utils/check-style-clang-format.py:663-705 | a fixed file is compliant, and a second fix changes nothing |
| TabCheck.FixChangesExactly | utils/check-style-clang-format.py:700-705 | a fix changes a file if and only if the check reports it |
| Timeline.TimelineDataRange.Search | utils/grid.py:126-143 | a range that contains the key, or -1 if none does |
| Timeline.TimelineDataRange.GetRanges | utils/grid.py:160-176 | the slice that the two answers determine; on disjoint ranges it misses no overlapping one if and only if an end hits a range or none lies strictly inside |
| Timeline.TimelineDataRange.GetRangesBounds | utils/grid.py:178-194 | the bounds of that slice |
| Timeline.AnswerIsUnique | utils/grid.py:126-143 | on disjoint ranges the search has one possible answer |
| Timeline.BothEndsHit | utils/grid.py:167-176 | if both ends hit, the slice is exactly the overlapping ranges |
| Timeline.NoneIsMissedExactly | utils/grid.py:167-176 | the slice holds every overlapping range, and perhaps others, if and only if an end hits a range or none lies strictly inside |
| Timeline.GetRangesIsPreciseExactly | utils/grid.py:167-176 | the slice is exactly the overlapping ranges if and only if `Precise`, read off the first range, the last range or those between the ends |
| Timeline.RangesMayBeMissed | utils/grid.py:169-170 | a range inside the interval that is not returned |
| Timeline.TimelineEvent.Search | utils/grid.py:230-247 | the number of events before the key |
| Timeline.TimelineEvent.GetEvents | utils/grid.py:257-266 | every event in the interval, none before it, at most one after it |
| Timeline.TimelineEvent.GetEventsBounds | utils/grid.py:268-277 | the bounds of that slice |
| Timeline.SliceOfEvents | utils/grid.py:264-266 | what the slice between two places of strictly increasing events holds |
| Timeline.NothingLaterExactly | utils/grid.py:264-266 | no later event is returned if and only if one happens at the end or none after it |
| Statistics.Sum | lib/stats.js:46-50 | the loop computes the exact total |
| Statistics.TotalsSplit | lib/stats.js:46-50 | the total of two lists is that of both |
| Statistics.TotalOfOne | lib/stats.js:46-50 | the total of one value is the value |
| Statistics.DeviationExpands | lib/flowmonitor.js:243-250 | squared deviations about any centre are determined by total, squares and count |
| Statistics.NoDeviationExactly | utils/bench-scheduler.cc:334-339 | the deviation is 0 exactly if all values are the centre |
| Statistics.SquareOfTotal | lib/flowmonitor.js:243-250 | Cauchy and Schwarz with its defect: n times the squares minus the squared total is n times the deviation from the mean |
| Statistics.JainIsFair | lib/flowmonitor.js:243-250 | the index of real throughputs is in [0, 1], and 1 exactly if all are equal and not zero |
| Statistics.JainIsAtLeastOneNth | lib/flowmonitor.js:243-250 | for non-negative throughputs, not all zero, it is at least 1/n |
| Statistics.TotalsPermute | lib/stats.js:46-50 | totals do not depend on the order |
| Statistics.DeviationPermutes | utils/bench-scheduler.cc:307-332 | nor do squared deviations |
| Welford.Accumulate | utils/bench-scheduler.cc:318-322 | one update takes mean and second moment to those of one more sample |
| Welford.WelfordStep | utils/bench-scheduler.cc:303-322 | the online update equals the definition |
| Welford.AccumulateAll | utils/bench-scheduler.cc:312-332 | one pass updates all six fields |
| Welford.Log | utils/bench-scheduler.cc:295-332 | for two or more runs the loop ends with the exact means and the squared deviations from the final means; otherwise nothing is averaged |
| Welford.FieldsExactly | utils/bench-scheduler.cc:324-329 | the six fields determine a result |
| Welford.Moment2IsNonNegative | utils/bench-scheduler.cc:334-339 | the second moment is non-negative, and 0 exactly if all runs agree |
| Welford.MomentsPermute | utils/bench-scheduler.cc:307-332 | mean and second moment do not depend on the order of the runs |
| FlowKpi.ParseFlowMonitor | lib/flowmonitor.js:397-453 | one flow for every statistics entry, with the last classifier entry of its id or none |
| FlowKpi.FlowsExactly | lib/flowmonitor.js:415-451 | flow by flow: its statistics, the classifier entry of its id, and the time it was seen for |
| FlowKpi.LastEntryCounts | lib/flowmonitor.js:404-411 | the last entry of an id is the one that counts |
| FlowKpi.UnknownId | lib/flowmonitor.js:419-423 | an id without an entry gets empty addresses and protocol 0 |
| FlowKpi.FlowExactly | lib/flowmonitor.js:130-150 | throughput, mean delay and mean jitter of a flow, by multiplication |
| FlowKpi.ScenarioKpiExactly | lib/flowmonitor.js:193-240 | the accessors: means over the receiving flows, goodput over the common span, loss over all packets |
| FlowKpi.MeanIsMean | lib/stats.js:33-38 | the mean times the number is the total, and it lies between the least and the greatest value |
| FlowKpi.ForwardKpi | lib/flowmonitor.js:485-571 | the pass reports from the totals and lists of the entries whose id is forward |
| FlowKpi.ReportExactly | lib/flowmonitor.js:548-570 | delay and jitter are the means of their lists, between the least and the greatest; goodput times the common span is the bits received; loss times packets sent is 100 times packets lost |
| FlowKpi.RunningInTurn | lib/flowmonitor.js:522-546 | the pass takes the entries in turn, those whose id is a forward one |
| FlowKpi.AddExactly | lib/flowmonitor.js:525-545 | what one entry adds: its rate, its mean delay if it received, its mean jitter if it received twice, its times and totals |
| FlowKpi.ForwardIdsExactly | lib/flowmonitor.js:493-505 | an id is forward if and only if some classifier entry of it is |
| FlowKpi.ForwardExactly | lib/flowmonitor.js:193-200 | forward means TCP from 10.1.x.x to 10.2.x.x |
| FlowKpi.SamplesAgree | lib/flowmonitor.js:507-546 | where forward ids and forward flows agree, the lists are what the accessors take |
| FlowKpi.SameSamplesSameKpi | lib/flowmonitor.js:193-250 | the same lists give the same flow count, throughput, delay, jitter, loss and Jain index |
| FlowKpi.KpisAgreeExactly | lib/flowmonitor.js:485-571 | both ways agree on a document if and only if each id in its statistics has a forward entry exactly when its last entry is one |
| FlowKpi.KpisAlwaysAgreeExactly | lib/flowmonitor.js:485-571 | they agree on all statistics of a classifier if and only if this holds of every id |
| FlowKpi.DistinctIdsAreConsistent | lib/flowmonitor.js:397-411 | distinct ids meet that condition |
| FlowKpi.RepeatedIdsMayDiffer | lib/flowmonitor.js:404-411 | a repeated id on which the two ways differ |
| RealKpi.CollectReasons | main.js:527-561 | the reasons against a run, in the order of the tests |
| RealKpi.ReasonsExactly | main.js:536-561 | each reason is given if and only if its measurement is out of bounds |
| RealKpi.ReportExactly | main.js:494-574 | a run is reported as missing, as malformed, or with its reasons, and accepted if and only if its document is within the budget |
| RealKpi.FairnessRejectsNone | main.js:533-561 | a document is accepted exactly if flow count, throughput, delay and loss are within the budget; the fairness reason never occurs |
| RealKpi.CheckRuns | main.js:486-576 | the four loops accept and report every expected run in order |
| RealKpi.EachExpectedOnce | main.js:487-490 | the loops visit each combination of the catalogue exactly once |
| RealKpi.ExpectedOrder | main.js:487-490 | the runs come setting by setting, then scenario, protocol and seed, each in the order of the catalogue |
| RealKpi.OneOutcome | main.js:494-574 | an expected run is accepted once or reported once, not both |
| RealKpi.ExcludeGroups | main.js:581-602 | excludes and reports the groups without a full set of protocols |
| RealKpi.GroupReported | main.js:585-600 | a group is reported exactly if it lacks a protocol, with exactly those it lacks |
| RealKpi.WidenExclusions | main.js:603-613 | a scenario and seed excluded in one setting are excluded in all |
| RealKpi.SortSorts | main.js:616-624 | the entries are put in strictly ascending order by setting, scenario, protocol and seed, none lost |
| RealKpi.AscendingExactly | main.js:616-624 | what ascending means: by setting, then scenario name, then protocol, then seed |
| RealKpi.SurvivesExactly | main.js:581-629 | an accepted run survives exclusion exactly if all settings and protocols were accepted for its scenario and seed |
| RealKpi.BuildRealKpi | main.js:450-629 | the entries are exactly the kept runs, strictly ascending, and the anomalies exactly those of runs and groups |
| RealKpi.KeptIsLargestBalanced | main.js:577-613 | the kept runs are balanced, and every balanced set of accepted runs is within them |

## Left out

- The congestion controller and the ns-3 modules, scripts and examples: their logic is not in the modelled files.
- Plotting, page rendering, diagrams and the graphical parts of utils/grid.py.
- XML, git, subprocess, file and network access: attribute records, directory listings and file contents are inputs.
- Rounding: reals are exact, so `toFixed`, `floatToString`, NaN, infinities and square roots are not modelled; the standard deviation is stated on its square.
- `Uniquefy`, which takes its container by value and so changes nothing; `IsChildOf`, which is a given relation; `GetNoTypeIds` and `Print`.
- Library discovery in `sort_to_dependencies`. The default argument `steps={}` is a new dictionary for each sort, because `dependency_order` is defined inside it; the model starts from it.
- Regular-expression mode, git's ignore list and symbolic links in rename.js.
- Rename.RenamePaths: new names are single path components, so a rule that yields a separator, `.` or `..` is not covered.
- Numbers other than safe integers in lib/json.js; `toJSON` and inherited members.
- Delimiters of more than one character in lib/csv.js, and the column name `__proto__`.
- `usage` and the option readers of lib/cli.js; a command named like a member of `Object.prototype`, which `defaultByCommand` would inherit; integers beyond the doubles.
- Exceptions that end a worker or main in test.py, and the reports that are printed.
- Failures of a file conversion in clrf-to-lf.js, the probe for binary files, and the sort of the reports by name.
- The verbose messages of the tab check, and reading and writing the file.
- The sorting of ranges and events in utils/grid.py, which the searches take as given.
- `Bench::Run` and the event queue of utils/bench-scheduler.cc.
- The ports that `forwardKpi` collects, and attributes that are missing or not numbers.
- RealKpi.BuildRealKpi: entries are runs without their rendered rows; the keys are records instead of strings joined by NUL, which assumes names without NUL; aggregation and the written files are not modelled.
