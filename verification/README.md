# Mesa build helpers and the OpenCL C++ wrappers, verified

Five pieces of Mesa hold real logic: the parser for Makefile source lists, what the SCons
build makes of its result, the megadriver installer, the `perf script` annotator, and the
object wrappers of `cl.hpp`. This project models them in Dafny and proves what they are for.
`dafny verify dfyconfig.toml` checks all of it.

Code that changes state step by step is imperative here too: the source list parser, the
perf parser, the build environment, the installation directory, `cl::vector`, its iterator,
`cl::string` and the handle wrapper are classes whose methods follow the source statement by
statement. Each method is proved equal to a function of its inputs and old state, and the
properties are lemmas about those functions.

| file | what it holds |
|---|---|
| `Text.dfy` | Python's `strip`, `find`, `split` on strings, and their laws |
| `SourceList.dfy` | the meaning of a source list: line splicing, expansion, definitions, a parser over many files |
| `SourceListParsing.dfy` | the parser class, proved to compute that meaning |
| `LineForms.dfy` | what each form of a line does, over its text |
| `ExpansionLaws.dfy` | expansion is a substitution; the table stays fully expanded |
| `DeferredExpansion.dfy` | GNU Make's deferred expansion as a reference interpreter, and when the two agree |
| `Reparsing.dfy` | what a file depends on, and parsing it twice |
| `Wrapping.dfy` | word lists broken over lines come back whole |
| `SourcePaths.dfy` | `parse_source_list`: from a table to the sources of a target |
| `PkgConfig.dfy` | package flags stored under prefixed keys and found again |
| `Megadriver.dfy`, `Installation.dfy` | the installer over a directory of hard and symbolic links, and what it comes to |
| `SharedLibrary.dfy` | the chain of versioned library names |
| `CallLine.dfy`, `PerfScript.dfy`, `PerfParsing.dfy` | call lines and their pattern, what is counted and shown, the parser object |
| `ReferenceCounting.dfy`, `WrapperObjects.dfy` | reference counts over whole runs, and the objects that take those steps |
| `ClVector.dfy`, `ClString.dfy` | the fixed-capacity vector with its iterator, and the string that owns a buffer |

The main results, hardest first:

* For every file the source list parser accepts in which no symbol is set after its first
  reference, its table is the one of an interpreter that stores `=`, `?=` and `+=` text and
  expands it at the end (section 6.2 of the GNU Make manual, "The Two Flavors of Variables").
  And for every file both accept, the two agree if and only if each text stored unexpanded
  expands in the parser's final table to the parser's value, and none refers to itself.
* The perf parser reads a file, whatever it is, if and only if it is a stream of readable
  records. It gets back in step at every blank line, although a call chain is left after one
  or two calls and its rest is read as new events. The run succeeds if and only if, beyond
  that, there is a listing and all samples lie in it, and the total printed is the number of
  samples.
* The installer does its work, every driver and every alias leading to the library, if and
  only if the library can be copied, each driver has a `.so` part, no driver and no alias is
  the master's name or on the way from there to the file the copy is written to, and no
  dangling link is in the way. This is for every directory, symbolic links at the master's
  name included, and every list of drivers, also one with duplicates and with drivers that
  are aliases of others.
* `pkg_use_modules` accepts a checked module and recovers exactly its flags if and only if no
  other entry stands in the place of one of them and the module is available; which modules
  are available, those never found or never checked among them, is known exactly too.
* In every reachable state of a program with wrapper objects each reference is accounted for
  and no dead handle was touched.
* A file that sets each of its symbols before reading it gives the same values when it is
  parsed again.

Where the code does not do what one would expect, the exact condition is proved:

* `OnlyLeafIsCounted`, `OnlyLeavesAreCounted`: a caller in the symbol asked for can be
  counted like a leaf; a record counts for its leaf alone if and only if the callers at every
  second place, from the third or fourth frame on, are outside the symbol.
* `CallRoundTrip`: a module with a parenthesis behind white space is read as a part of itself,
  the rest goes to the symbol.
* `HowTheLoopEnds`: the peeling loop ends normally only for names with a `.so` part; a name
  without an extension ends it with an error, and for all others it never ends.
* `InstallationSucceeds`: a dangling link in the place of a driver or alias, or one of these
  names on the way from the master's name to the library, makes the installation fail or
  leaves it incomplete. `LinkedMasterIsLost`: with a link from the master's name to a driver
  the library is lost without an error.
* `FlagsRoundTrip`, `WhichNamesClash`, `WhichFlagsOverwrite`: the flags of a module named
  `HAVE` or `HAVE_x` mix with the availability entries of other modules, in both directions;
  distinct upper-case names are not enough. `UsableIfAvailable`, `UsableUnchecked`,
  `MissingButUsable`, `UncheckedButUsable`: such a flag also makes modules usable that were
  not found, or never checked.
* `AgreeIfConsistent`, `ReassignmentIsSeenOnlyByDeferred`: a symbol that is set again after
  it was referred to can have two different values in the parser and when deferred.
* `EverySourceIsVersioned`: the first source uses the version up, so every source gets its
  versioned names if and only if there is no version or no second source.
* `SourcesDenoteTheirFiles`, `RelativizeKeepsFile`: an empty component behind the current
  directory makes a relative source absolute.
* `MapBuildOnComponents`: the `src` below the build tree is cut off as a prefix, so a
  directory such as `srcgen` is cut in two.
* `ErrorLineNumber`: the line number of an error is that of the first line of the failing
  definition if and only if no line before it is continued.
* `UnguardedSelfAssignment`, `QueryIntoWrapper`: the base class's `operator=` is unsafe for a
  wrapper that owns the last reference; a query into a wrapper that holds a handle loses it.
* `PostfixLoop`: `it++` does not move an iterator of `cl::vector`.
* `OnlyAssignmentLeaks`: assigning to a `cl::string` that has a buffer leaks the buffer.

The documentation of `scons/source_list.py` (lines 3-12, and the message at line 69) lists the
operators `=`, `+=` and `:=`; the code also accepts `?=`, and so does the model.

## Model

| member | source | states |
|---|---|---|
| SourceListParsing.SourceListParser.Parse | scons/source_list.py:112-127 | Parsing a file takes exactly the pure step: the file parsed last is skipped, a missing file changes nothing, otherwise the spliced logical lines run in order; on a failure the table keeps the lines before it, everything else is reset, and the error carries the count of logical lines |
| SourceListParsing.SourceListParser.ParseLines | scons/source_list.py:119-122 | The loop over physical lines refines running the joined logical lines; it stops at the first failure and leaves exactly the unfinished continuation pending |
| SourceListParsing.SourceListParser.ParseNumberedLine | scons/source_list.py:122 | One physical line extends the refinement by one line, or shows the outcome of the whole file when it fails |
| SourceListParsing.SourceListParser.ParseLine | scons/source_list.py:84-110 | A continued line only grows the pending text; any other completes a logical line, clears the pending text and has that line's effect |
| SourceListParsing.SourceListParser.ParseText | scons/source_list.py:99-110 | A logical line: empty and comment lines do nothing, white space only is an index error, a tab starts a rejected recipe line, the rest is a definition; a failure leaves the table as it was |
| SourceListParsing.SourceListParser.ParseDefinitionLine | scons/source_list.py:58-82 | Operator, symbol and text are found as in the source, the error cases included, and the definition has its effect or none |
| SourceListParsing.SourceListParser.Store | scons/source_list.py:76-82 | The four operators on the table; `+=` on an unknown symbol fails and changes nothing |
| SourceListParsing.SourceListParser.ExpandValue | scons/source_list.py:42-56 | The loop with its cursor computes the recursive expansion, with the same first error |
| SourceListParsing.SourceListParser.Reset | scons/source_list.py:19-23 | Everything but the table goes back to the start |
| SourceListParsing.SourceListParser.constructor | scons/source_list.py:15-17 | The initial state |
| SourceListParsing.SourceListParser.AddSymbol | scons/source_list.py:129-130 | One table entry changes and nothing else of the state |
| SourceListParsing.ExpandStep | scons/source_list.py:45-54 | One round of the expansion loop from any cursor position |
| SourceListParsing.ExpandRound | scons/source_list.py:51-54 | One round of the loop keeps the text expanded so far in step with the whole expansion, or is its first error |
| SourceListParsing.NextDereferenceInRest | scons/source_list.py:28-40 | Searching from a cursor is searching in the rest of the text |
| SourceListParsing.FailureInPrefix | scons/source_list.py:119-125 | A failure among the lines read so far is the failure of the whole file |
| SourceListParsing.ParseContinued | scons/source_list.py:86-93 | A continued physical line completes no logical line; its text joins the pending text with one space |
| SourceListParsing.ParseCompleted | scons/source_list.py:95-98 | Any other physical line completes exactly one logical line, the pending text followed by the line without leading space |
| Text.SpaceCodes | scons/source_list.py:75 | The six characters of white space by their codes |
| Text.TabsAndNewlines | scons/custom.py:272 | Tabs and newlines separate words and are stripped like blanks |
| SourceList.NextDereferenceIsFirst | scons/source_list.py:28-40 | The reference found is the first `$` behind the cursor with the first `)` behind it; none is found if and only if there is no `$`; each of the three errors occurs exactly for its kind of malformed text |
| SourceList.FailureIsAtomic | scons/source_list.py:74-82 | If a logical line fails, the table is the effect of the lines before it, and the failure is what that line does to this table |
| SourceList.RunConcat | scons/source_list.py:121-122 | A run without failure goes on with further lines from the table it left |
| SourceList.RunStops | scons/source_list.py:121-125 | Lines behind a failure change nothing |
| SourceList.SpliceStep | scons/source_list.py:84-98 | Reading one more physical line: what happens to the logical lines and to the unfinished continuation, for all lines before it |
| SourceList.LinesAreConserved | scons/source_list.py:93-110 | Logical lines and continued lines add up to the physical lines |
| SourceList.LineNumberCountsLogicalLines | scons/source_list.py:121-122 | After a file `line_no - 1` plus the number of continued lines is the number of physical lines |
| SourceList.ErrorLineNumber | scons/source_list.py:25-26 | When a file fails, the failing logical line is made of known physical lines; the line number plus the continued lines before the first, or the last, of them is its physical number, so it is right if and only if there are none |
| SourceList.EndLine | scons/source_list.py:86-98 | Every logical line is ended by one physical line without a backslash, behind as many logical lines as there are before it |
| SourceList.LineSpan | scons/source_list.py:86-98 | Every logical line is the join of a run of physical lines, behind as many logical lines as there are before it |
| SourceList.FailureLeavesNothing | scons/source_list.py:19-26 | After a failure only the table is left: the next parse, of the same file too, is like one of a new parser that was given that table |
| SourceList.CurrentFileIsSkipped | scons/source_list.py:113-114 | Parsing the current file again changes nothing, whatever the file has become |
| SourceList.NothingLeaks | scons/source_list.py:116-127 | Parsers with the same table parse another file alike: no pending continuation and no line number leaks into it |
| LineForms.CommentDoesNothing | scons/source_list.py:101-104 | A line whose first visible character is `#` does nothing, also behind a tab |
| LineForms.BlankLines | scons/source_list.py:99-101 | An empty line does nothing; white space alone is an index error |
| LineForms.TabStartsRecipe | scons/source_list.py:105-106 | A tab before anything but a comment is the recipe error, with any further white space |
| LineForms.NoDefinition | scons/source_list.py:60-69 | Text without `=` is no definition, text that starts with it has no operator |
| LineForms.DefinitionParts | scons/source_list.py:58-75 | White space around the symbol and before the text is dropped, and each of the four operators is taken for itself, whatever the text; a plain `=` must not follow a `:`, `+` or `?` at once |
| LineForms.DefinitionTakesEffect | scons/source_list.py:58-82 | So what a written definition does to any table, for each operator and text, its expansion errors and the unknown symbol of `+=` included |
| ExpansionLaws.ExpandIsSubstitution | scons/source_list.py:42-56 | Expanding a printed template substitutes the values for the references and copies the rest, or fails at the first undefined reference |
| ExpansionLaws.RenderParse | scons/source_list.py:28-40 | Every text that has no malformed reference is the print of a well-formed template, so the substitution law covers all texts |
| ExpansionLaws.ExpandSucceeds | scons/source_list.py:28-56 | Expansion succeeds if and only if no reference is malformed and all symbols are defined |
| ExpansionLaws.ExpandIsIdempotent | scons/source_list.py:42-56 | With an expanded table the result has no `$`, and expanding it again changes nothing |
| ExpansionLaws.EffectKeepsDollarFree | scons/source_list.py:58-82 | Every definition keeps the table expanded |
| ExpansionLaws.LinesKeepDollarFree | scons/source_list.py:112-127 | So does every file, also one that fails half way |
| ExpansionLaws.ReachableTablesAreExpanded | scons/source_list.py:76-130 | After any sequence of parses and `add_symbol` calls with `$`-free values every stored value is `$`-free and expands to itself |
| DeferredExpansion.EagerAgreesWithDeferred | scons/source_list.py:42-82 | For every accepted file that sets no symbol after its first reference, the table equals that of the deferred interpreter, symbol by symbol |
| DeferredExpansion.FilesAgreeIfConsistent | scons/source_list.py:42-82 | For every file both interpreters accept, they agree if and only if the texts stored unexpanded are consistent with the parser's final table and have no cycle |
| DeferredExpansion.AgreeIfConsistent | scons/source_list.py:42-56 | The same for any two tables: each stored text expands, in one eager pass, to the eager value, and references lead from higher to lower ranks |
| DeferredExpansion.StoredTextExpands | scons/source_list.py:42-56 | In agreeing tables a stored text expands in one eager pass to its own eager value, and what it refers to goes less deep |
| DeferredExpansion.ReassignmentIsSeenOnlyByDeferred | scons/source_list.py:74-77 | Three lines after which the parser has the old value, the deferred interpreter the new one, and the two do not agree |
| DeferredExpansion.LastLineAgrees | scons/source_list.py:58-110 | One more line keeps the two interpreters in agreement |
| DeferredExpansion.DeferAgrees | scons/source_list.py:76-82 | One definition by any of the four operators keeps the agreement, if its symbol is not yet in use |
| DeferredExpansion.SetSymbolIsUnused | scons/source_list.py:74-82 | In such a file the symbol a line sets is named by no stored text |
| DeferredExpansion.EagerIsDeep | scons/source_list.py:42-56 | One eager pass over agreeing tables gives the recursive expansion |
| DeferredExpansion.AppendedMeaning | scons/source_list.py:78-79 | Appending unexpanded text means appending its expansion behind one space |
| Reparsing.ReparsingIsIdempotent | scons/source_list.py:112-127 | A self-contained file parsed again, after any calls that do not assign its imports, is accepted and gives all its symbols their former values; if it is still the current file, so that the second parse is skipped, the calls must not have assigned its symbols either |
| Reparsing.FileDependsOnImports | scons/source_list.py:58-127 | Tables that agree on the imports of a self-contained file agree on all its symbols afterwards |
| Reparsing.OutcomeDependsOnImports | scons/source_list.py:58-127 | The same for every beginning of the file, failures included |
| Reparsing.EffectDependsOnNeeds | scons/source_list.py:58-82 | A line has the same effect, or the same error, in tables that agree on what it reads |
| Reparsing.ExpandDependsOnReferences | scons/source_list.py:42-56 | An expansion depends only on the symbols referred to |
| Reparsing.OnlyAssignedChange | scons/source_list.py:76-82 | A file changes only symbols it assigns, even if it fails |
| Reparsing.CallsKeep | scons/source_list.py:112-130 | Calls that do not touch a symbol keep its value |
| Wrapping.WrappedWordsRoundTrip | scons/source_list.py:58-110 | Words printed behind `SYM =` or `SYM :=`, broken at any word boundaries and indented at will, parse back to a value whose words are exactly those; no other symbol changes |
| Wrapping.WrappingIsInvariant | scons/source_list.py:86-98 | Two ways to break the same words give the same words |
| Wrapping.PrintedIsOneLine | scons/source_list.py:86-98 | The broken print is one logical line, with white space around each break reduced to a space |
| Wrapping.OpenIsPending | scons/source_list.py:86-93 | The pending text after some of the lines |
| Wrapping.ClassifyDefinition | scons/source_list.py:58-77 | The printed head parses back to its symbol and operator |
| SourcePaths.ParseSourceList | scons/custom.py:239-296 | With names: the parse error, the first unknown name, or the lists of the names one after the other, from the table with the two given symbols |
| SourcePaths.ParseAllSourceLists | scons/custom.py:239-298 | Without names: one list for every symbol of the table |
| SourcePaths.ParseTable | scons/custom.py:241-257 | The table comes from a fresh parser that was given the two directory symbols |
| SourcePaths.ConvertNames | scons/custom.py:267-296 | Lists are stored by name and then concatenated by name, so a name given twice counts twice; the first unknown name is the error |
| SourcePaths.ConvertAll | scons/custom.py:265-298 | The dictionary has a list for each symbol and nothing else |
| SourcePaths.ConvertWords | scons/custom.py:271-288 | The loop keeps every converted word that is no header, in order |
| SourcePaths.ConvertPath | scons/custom.py:274-282 | The two prefix tests, in this order |
| SourcePaths.SourcesDenoteTheirFiles | scons/custom.py:272-286 | The sources denote, in order, exactly the files that the words mean, headers left out, if and only if no word that is not a header has an empty component behind the current directory |
| SourcePaths.RelativizeKeepsFile | scons/custom.py:279-282 | Making a path relative keeps its file if and only if no empty component follows the current directory |
| SourcePaths.MapBuildOnComponents | scons/custom.py:275-278 | The build tree mapping respects path components if and only if `src` is not merely the beginning of a longer name |
| SourcePaths.RelativizeKeepsHeaders | scons/custom.py:279-285 | A relative path is a header if and only if the absolute one is |
| SourcePaths.KeptAtItsPlace | scons/custom.py:283-286 | A word whose path ends in none of `.h`, `.hpp` and `.inl` is among the sources, at its place; one whose path does is not |
| SourcePaths.HeadersBySuffix | scons/custom.py:283-285 | The test is on the last two or four characters |
| SourcePaths.PathsBelowCurrent | scons/custom.py:279-282 | A path below the current directory becomes the part behind it; any other stays |
| SourcePaths.PathsBelowBuild | scons/custom.py:275-278 | A path below `src` of the build tree loses that component |
| SourcePaths.GivenDirectories | scons/custom.py:253-255 | Besides what a file sets there are two symbols, and `$(top_srcdir)` and `$(top_builddir)` expand to the two directories before any text |
| SourcePaths.NoHeaders | scons/custom.py:283-286 | No source ends in `.h`, `.hpp` or `.inl`, by its last characters |
| SourcePaths.SourcesConcat | scons/custom.py:271-286 | The sources of a concatenation are the concatenation of the sources |
| SourcePaths.NamesConcat | scons/custom.py:290-296 | The result for two name lists is one result behind the other |
| SourcePaths.WrappedSources | scons/custom.py:253-288 | From makefile text to sources: however a definition is broken over lines, the list comes from exactly the words written |
| PkgConfig.FlagsRoundTrip | scons/custom.py:165-231 | After any sequence of checks in any environment, using a checked module succeeds and finds exactly the flags of its last check if and only if no other entry stands in the place of one of its flags, unless overwritten by it, and the module is available |
| PkgConfig.FlagsAreRecovered | scons/custom.py:224-229 | The half of it about the flags, for all names and all checks, repeated and failed ones included |
| PkgConfig.AvailabilityAfter | scons/custom.py:168-196 | Checks of other names change the availability entry of a module only by storing a flag over it, and the last such flag stays |
| PkgConfig.UsableIfAvailable | scons/custom.py:218-222 | A checked module can be used if and only if the last flag stored over its availability entry is not empty or, without one, its last check has found it |
| PkgConfig.UsableUnchecked | scons/custom.py:218-222 | A module that was never checked can be used if and only if a flag that is not empty was stored in the place of its availability entry or, without one, it could be used at the start |
| PkgConfig.MissingButUsable | scons/custom.py:194 | A module that was not found becomes usable by the flags of a later one |
| PkgConfig.UncheckedButUsable | scons/custom.py:194 | A module becomes usable without a check by the flags of one named `HAVE` |
| PkgConfig.WhichNamesClash | scons/custom.py:168-196 | An availability entry has the key of a flag exactly for the name `HAVE` and for names `HAVE_x` beside modules `x_flag`; for names with an upper-case letter there are no other clashes |
| PkgConfig.WhichFlagsOverwrite | scons/custom.py:191-194 | The flags that take the place of an availability entry are exactly those of `HAVE` and of `HAVE_x` |
| PkgConfig.KeyIsInjective | scons/custom.py:191-194 | A key splits into module and flag in one way only, since flags have no underscore |
| PkgConfig.LowerIsNoKey | scons/custom.py:170-171 | The lower-case availability entries are no flags of a module with an upper-case letter |
| PkgConfig.CheckContributes | scons/custom.py:165-196 | What one check adds under the prefix of any module: its own flags, a clashing availability entry, or nothing |
| PkgConfig.AvailabilityContributes | scons/custom.py:165-196 | What one check writes at the availability entry of any module |
| PkgConfig.StoredFlags | scons/custom.py:191-228 | After any sequence of checks exactly the module's flags stand under its prefix, if nothing disturbs them for good |
| PkgConfig.ClashOverwrites | scons/custom.py:168-196 | A clash that comes no earlier than the flag overwrites it for good |
| PkgConfig.HarmIsSeen | scons/custom.py:191-228 | Any other disturbance shows as a flag that was not stored |
| PkgConfig.OneMoreCheck | scons/custom.py:198-206 | One call of `pkg_check_modules` is one more overlay over the environment |
| PkgConfig.LowerAt | scons/custom.py:171 | Lower case by code points: 32 more from A to Z, all else unchanged |
| PkgConfig.CheckOfX11 | scons/custom.py:165-206 | After a check of `X11` the entries `x11` and `HAVE_X11` say whether it was found, and its `LIBS` are under `X11_LIBS` |
| PkgConfig.BuildEnvironment.CheckAll | scons/custom.py:198-206 | A sequence of checks succeeds if and only if no flag name has an underscore, and leaves every key as the overlays say |
| PkgConfig.BuildEnvironment.TryModules | scons/custom.py:165-196 | The whole environment after the inner check, at every key but the lower-case one; the assertion fails if and only if a flag name has an underscore |
| PkgConfig.BuildEnvironment.CheckModules | scons/custom.py:198-206 | The whole environment after the check, at every key |
| PkgConfig.BuildEnvironment.UseModule | scons/custom.py:215-231 | Unknown and unavailable modules are errors; otherwise exactly the entries under the prefix without a further underscore are merged |
| PkgConfig.BuildEnvironment.UseModules | scons/custom.py:209-231 | The names are used in order up to the first that is unknown or unavailable, which is the error; exactly the flags of the names before it are merged, one call for each name that has any |
| Installation.InstallationSucceeds | bin/install_megadrivers.py:45-69 | For every directory and every list of drivers: the installer ends without an error and with every driver and alias leading to the library if and only if the library can be copied, all drivers have a `.so` part, no driver and no alias is on the way from the master's name to the file copied to, and no dangling link is in the way |
| Installation.InstallationIsComplete | bin/install_megadrivers.py:45-69 | Then also: each name is a copy of the master's entry or a link to a longer name that is one, the master's name is gone, all other entries are as the copy has left them |
| Installation.CutsAreInstalled | bin/install_megadrivers.py:49-69 | By position: every beginning of a driver that ends before a dot behind its last `.so` part leads to the library |
| Installation.LinkedMasterIsLost | bin/install_megadrivers.py:47-69 | When the master's name is a link to a driver, the installer reports no error and no file is left |
| Installation.SuccessLeavesTrail | bin/install_megadrivers.py:49-66 | A driver or alias on the way from the master's name to the library closes a loop of links that stays to the end, or makes the installer fail |
| Installation.TrailCloses | bin/install_megadrivers.py:52-65 | How it does: the name becomes a copy of the master's link, or a link to such a copy |
| Installation.StuckStays | bin/install_megadrivers.py:52-65 | Links that lead to one another only are in the way of every later link to one of their names |
| Installation.LongestDriverStays | bin/install_megadrivers.py:49-69 | A longest driver is a copy of the master's entry in the end, so the content survives the last unlink |
| Installation.LinkTargetIsMaster | bin/install_megadrivers.py:49-66 | The driver that a final link points to was not overwritten by a later driver |
| Installation.InstallDriversWorks | bin/install_megadrivers.py:49-68 | Any number of drivers off the master's trail is installed if and only if nothing is in their way; then each entry is what its last writer made of it, and each link leads to a longer name that was written |
| Installation.InstallDriverWorks | bin/install_megadrivers.py:50-66 | The same for one driver: a copy of the master's entry, links from all its aliases, nothing else changed |
| Installation.PlaceAllWorks | bin/install_megadrivers.py:61-66 | The links of the aliases succeed if and only if all of them are writable, and change no other entry |
| Installation.PlaceLinkWorks | bin/install_megadrivers.py:52-55 | The link of the driver succeeds if and only if its name is not taken by a dangling link, as can be told from the initial directory; each name written still leads to a longer one or is a copy of the master's entry |
| Installation.PlaceSymlinkWorks | bin/install_megadrivers.py:63-65 | The same for each symbolic link |
| Installation.WrittenResolves | bin/install_megadrivers.py:49-66 | After each completed step every name written leads to the library: no link the installer has made dangles or is in a loop |
| Installation.ResolvesIfLeads | bin/install_megadrivers.py:52-64 | What `exists` says in the middle of the run, for any name, from the initial directory and the names written so far |
| Installation.TrailResolves | bin/install_megadrivers.py:47 | Every name on the way from the master's name leads to the library after the copy |
| Installation.NoDanglingIsUnobstructed | bin/install_megadrivers.py:52-64 | A name that leads to a file at the start, or is free, is never in the way |
| Installation.HowTheLoopEnds | bin/install_megadrivers.py:61-66 | The peeling loop ends normally if and only if the name has a `.so` part and no dangling link is met, with an error for a dangling link or a name without extension, and never in all other cases |
| Installation.LoopGoesOn | bin/install_megadrivers.py:62-66 | Once peeled down to a name without an extension, the loop is still running after any number of rounds |
| Installation.LoopAtOnce | bin/install_megadrivers.py:62-65 | A driver without an extension becomes a link to itself, and the second round fails |
| Installation.EndedLoop | bin/install_megadrivers.py:61-66 | A loop without an error had a name with a `.so` part and has made just the links of its aliases |
| Installation.LoopIsPlaceAll | bin/install_megadrivers.py:61-66 | Given enough rounds the loop makes the links of all aliases and goes on from the last |
| Installation.MasterAsDriverFails | bin/install_megadrivers.py:52-55 | If a driver has the master's name and no earlier driver touches its trail or is obstructed, the installer fails there, since it has just removed the source of the link |
| Installation.SuccessIsPeelable | bin/install_megadrivers.py:49-66 | A run without an error has had drivers with a `.so` part only |
| Megadriver.PeelableIffSoPart | bin/install_megadrivers.py:61-66 | Peeling reaches `.so` if and only if the name has a `.so` suffix part behind a visible stem |
| Megadriver.SplitExtAtDot | bin/install_megadrivers.py:62 | Behind a stem with any character but a dot, the extension is the last dot with what follows |
| Megadriver.SplitExtNone | bin/install_megadrivers.py:62 | Every other name has no extension |
| Megadriver.AliasesAreCuts | bin/install_megadrivers.py:61-66 | The aliases are exactly the beginnings of the name that end before a dot and still have its last `.so` part, given by indices |
| Megadriver.AliasesDescend | bin/install_megadrivers.py:61-66 | They come in order of length, longest first |
| Megadriver.FailureStops | bin/install_megadrivers.py:49-55 | After an error nothing more is installed |
| Megadriver.AliasesAreShorter | bin/install_megadrivers.py:61-66 | Every alias is shorter than its driver |
| Megadriver.AliasesAreTransitive | bin/install_megadrivers.py:61-66 | The aliases of an alias are aliases of the driver |
| Megadriver.Directory.InstallMegadriver | bin/install_megadrivers.py:47-69 | The installer on the directory object, for all drivers and any entry at the master's name: entries and error as specified, the library's bytes are in its inode, other files untouched |
| Megadriver.Directory.InstallAll | bin/install_megadrivers.py:49-68 | The loop over the drivers, with its first error |
| Megadriver.Directory.InstallOne | bin/install_megadrivers.py:50-66 | One driver with its peeling loop, for up to any number of rounds |
| Megadriver.Directory.Copy | bin/install_megadrivers.py:47 | The copy follows symbolic links, overwrites a file in place or makes a new one; links in a loop are an error |
| Megadriver.Directory.Unlink | bin/install_megadrivers.py:53 | Removes one name, or fails |
| Megadriver.Directory.Link | bin/install_megadrivers.py:55 | One more name for the same entry, or one of two errors |
| Megadriver.Directory.MakeSymlink | bin/install_megadrivers.py:65 | A symbolic link, or an error if the name is taken |
| SharedLibrary.InstallSharedLibrary | scons/gallium.py:71-82 | The list of target names: a full chain for the first source, the plain name for each later one |
| SharedLibrary.EverySourceIsVersioned | scons/gallium.py:71-82 | Every source gets its full chain of names if and only if there is no version or at most one source |
| SharedLibrary.BuiltChain | scons/gallium.py:47-52 | Each link made points to the name with one more version part, whatever was there before; other names do not change |
| SharedLibrary.ChainResolves | scons/gallium.py:76-81 | Along such links every name leads to the installed file, without a cycle |
| SharedLibrary.EveryNameResolves | scons/gallium.py:71-81 | After all links each name of the chain leads to the installed file |
| SharedLibrary.ChainAt | scons/gallium.py:73-78 | Number `i` of the names is the source with all but the last `i` version parts |
| SharedLibrary.PeelVersion | scons/gallium.py:73-78 | Taking the extension off a versioned name takes off its last version part, so the parts are joined by dots |
| SharedLibrary.JoinedStarts | scons/gallium.py:73-74 | A versioned name starts with the source |
| SharedLibrary.NamesOfVersion10 | scons/gallium.py:73-78 | The three names of version 1.0, spelled out |
| CallLine.MatchIsSound | bin/perf-annotate-jit.py:195 | The groups found satisfy the pattern |
| CallLine.MatchIsGreedy | bin/perf-annotate-jit.py:195 | Every line that satisfies the pattern is matched, with the longest groups from left to right |
| CallLine.PrefixIsForced | bin/perf-annotate-jit.py:195 | All matches of a line have the same address |
| CallLine.HexRoundTrip | bin/perf-annotate-jit.py:216 | Any number printed in base 16, in either letter case digit by digit and with leading zeros, is read back |
| CallLine.HexDigits | bin/perf-annotate-jit.py:195 | The digits are those with a value from 0 to 15, and no other characters |
| CallLine.CallRoundTrip | bin/perf-annotate-jit.py:195-208 | A call printed with its white space is read back, address, symbol and module, if and only if no parenthesis in the module stands behind white space |
| PerfScript.ParseCountsSamples | bin/perf-annotate-jit.py:138-228 | For every file at all, `parse` succeeds if and only if, without comments, it is a stream of readable records, there is a listing, and all samples lie in it; its total is then the number of samples |
| PerfScript.RecordsAreCounted | bin/perf-annotate-jit.py:145-193 | For every stream of records the parser ends in step, having counted exactly the samples of the records, if and only if all of them are readable; otherwise it fails |
| PerfScript.EventsSucceed | bin/perf-annotate-jit.py:145-193 | For every file: the events are read without an error if and only if it is a stream of readable records, whose samples are then counted |
| PerfScript.ToRecordsPrints | bin/perf-annotate-jit.py:173-193 | Splitting a file into records and printing them gives the file back |
| PerfScript.NoRecordsNoEvents | bin/perf-annotate-jit.py:177-178 | A blank line where a header should be makes the parser fail |
| PerfScript.ChainResynchronises | bin/perf-annotate-jit.py:173-193 | Wherever in a chain an event starts, the parser is in step again at the blank line, or fails if and only if a frame it reads as a call cannot be read |
| PerfScript.CallsOnFrames | bin/perf-annotate-jit.py:184-190 | One event consumes one frame, or two if the first was counted and another follows; it fails if and only if one of them cannot be read |
| PerfScript.OnlyLeafIsCounted | bin/perf-annotate-jit.py:184-205 | A record counts for its leaf alone if and only if no caller at every second place behind the leaf's event is in the symbol |
| PerfScript.OnlyLeavesAreCounted | bin/perf-annotate-jit.py:145-205 | A whole stream counts exactly its leaves if and only if each record does: what one counts too much no other makes up for |
| PerfScript.NothingCounted | bin/perf-annotate-jit.py:184-205 | From any frame on nothing is counted if and only if every second frame is outside the symbol |
| PerfScript.LeavesAreCounted | bin/perf-annotate-jit.py:197-228 | In particular, if the symbol occurs on leaf frames only |
| PerfScript.CallersAreCountedToo | bin/perf-annotate-jit.py:184-190 | A shortest example of a caller that is counted: the third frame of a chain whose leaf is elsewhere |
| PerfScript.CommentsAreIgnored | bin/perf-annotate-jit.py:138-143 | A comment line anywhere in the file makes no difference |
| PerfScript.CommentByText | bin/perf-annotate-jit.py:142 | A comment is a line that starts with `#` |
| PerfScript.LinesAreKept | bin/perf-annotate-jit.py:138-143 | Every other line is kept in its place, without its line end |
| PerfScript.ChompParts | bin/perf-annotate-jit.py:71 | What is cut off a line are the carriage returns and newlines at its end and nothing else |
| PerfScript.LeafOffset | bin/perf-annotate-jit.py:207-226 | From the text of a call: a leaf in the symbol asked for is counted at the number printed in its address less the start of the first map entry; a module without a map and a symbol without an entry are errors, another symbol counts nothing |
| PerfScript.LookupMapIsFirst | bin/perf-annotate-jit.py:90-103 | The start of the first entry with the symbol, none if and only if there is no such entry |
| PerfScript.ListingIsLast | bin/perf-annotate-jit.py:92-152 | The listing shown is that of the module sampled last |
| PerfScript.AddAllIsHistogram | bin/perf-annotate-jit.py:226 | The table counts how often each offset was sampled |
| PerfScript.CountsAreConserved | bin/perf-annotate-jit.py:159-167 | At every line of the listing, counts shown and samples not yet shown add up to all samples |
| PerfScript.TotalIsNumberOfSamples | bin/perf-annotate-jit.py:156-168 | If the listing has every sampled offset, the total is the number of samples |
| PerfScript.ShownOnce | bin/perf-annotate-jit.py:159-167 | Every sampled offset in the listing is shown with its count on exactly one line |
| PerfScript.FinalAssertion | bin/perf-annotate-jit.py:169 | The table is empty in the end if and only if every sampled offset is in the listing |
| PerfParsing.PerfParser.constructor | bin/perf-annotate-jit.py:57-62 | The whole file is still ahead, nothing is counted |
| PerfParsing.PerfParser.ReadRawLine | bin/perf-annotate-jit.py:64-71 | One line becomes the lookahead without its line end, or the end of the file is noted |
| PerfParsing.PerfParser.ReadLine | bin/perf-annotate-jit.py:138-143 | The lookahead is the next line that is no comment |
| PerfParsing.PerfParser.Consume | bin/perf-annotate-jit.py:77-81 | Takes the first line off the lines ahead |
| PerfParsing.PerfParser.FindSymbol | bin/perf-annotate-jit.py:90-103 | The start of the first map entry with the symbol |
| PerfParsing.PerfParser.CountLeaf | bin/perf-annotate-jit.py:207-228 | A leaf in the symbol is counted at its offset from the symbol's start; a missing map file or entry is an error |
| PerfParsing.PerfParser.ParseOneCall | bin/perf-annotate-jit.py:197-228 | One line is consumed; only the first call of a chain can be counted |
| PerfParsing.PerfParser.ParseCalls | bin/perf-annotate-jit.py:184-190 | The loop consumes exactly the lines, and counts the sample, that the function on the lines ahead says |
| PerfParsing.PerfParser.ParseCallchain | bin/perf-annotate-jit.py:184-193 | The same, with the blank line behind the calls |
| PerfParsing.PerfParser.ParseEvent | bin/perf-annotate-jit.py:173-182 | A header of any kind, then a chain; a blank header fails the assertion |
| PerfParsing.PerfParser.ParseEvents | bin/perf-annotate-jit.py:145-150 | The reading half computes the recursion over all lines without comments |
| PerfParsing.PerfParser.Drain | bin/perf-annotate-jit.py:152-168 | The printing half shows each count at its first address, sums them, and removes them from the table |
| PerfParsing.PerfParser.Parse | bin/perf-annotate-jit.py:145-169 | The result of the whole run, every error included |
| ReferenceCounting.RunsAreBalanced | include/CL/cl.hpp:1089-1135 | In every state of every run each reference belongs to a live wrapper or to someone else, and no retain or release touched a dead handle |
| ReferenceCounting.CountIsNumberOfWrappers | include/CL/cl.hpp:1089-1135 | Without foreign references the count is the number of wrappers that hold the handle, which dies with the last of them |
| ReferenceCounting.StepKeepsInv | include/CL/cl.hpp:1099-1135 | Every action keeps the accounts |
| ReferenceCounting.AssignKeepsInv | include/CL/cl.hpp:1112-1118 | Assigning between different wrappers keeps the accounts, and the source's handle is alive between release and retain even when both hold it |
| ReferenceCounting.CopyKeepsInv | include/CL/cl.hpp:1106-1110 | Copying keeps the accounts |
| ReferenceCounting.DestroyKeepsInv | include/CL/cl.hpp:1101-1104 | Destroying keeps the accounts |
| ReferenceCounting.HandlesAfter | include/CL/cl.hpp:1099-1118 | Which handle each wrapper holds: a copy and an assigned one that of the source, a new one what it was made with, all others keep theirs |
| ReferenceCounting.HeldIsAlive | include/CL/cl.hpp:1089-1135 | A handle some wrapper holds is alive |
| ReferenceCounting.UnguardedSelfAssignment | include/CL/cl.hpp:1468-1474 | Without the guard a self-assignment touches a dead handle if and only if the wrapper has the only reference |
| ReferenceCounting.QueryIntoWrapper | include/CL/cl.hpp:760-775 | A successful query into a wrapper keeps the accounts if and only if the wrapper held NULL |
| WrapperObjects.Runtime.Create | include/CL/cl.hpp:1432-1434 | The runtime's create call: a new handle starts with one reference, which the wrapper takes over |
| WrapperObjects.Runtime.Retain | include/CL/cl.hpp:1026-1087 | One more reference for a live handle, an error code otherwise |
| WrapperObjects.Runtime.Release | include/CL/cl.hpp:1026-1087 | One reference less for a live handle, an error code otherwise |
| WrapperObjects.Wrapper.constructor | include/CL/cl.hpp:1420-1441 | A wrapper takes over the created handle without a retain |
| WrapperObjects.Wrapper.CopyOf | include/CL/cl.hpp:1106-1110 | Same handle, one retain |
| WrapperObjects.Wrapper.Destroy | include/CL/cl.hpp:1101-1104 | One release, none for NULL |
| WrapperObjects.Wrapper.BaseAssign | include/CL/cl.hpp:1112-1118 | Release, then retain, also when both sides are one object |
| WrapperObjects.Wrapper.Assign | include/CL/cl.hpp:1468-1474 | The guarded assignment: nothing for the object itself |
| WrapperObjects.Wrapper.Query | include/CL/cl.hpp:760-775 | A successful query overwrites the handle and retains the new one; a failing one does nothing |
| WrapperObjects.Program.Construct | include/CL/cl.hpp:1420-1441 | The objects take exactly the step of the state machine, without aliasing |
| WrapperObjects.Program.Copy | include/CL/cl.hpp:1466 | The same for a copy |
| WrapperObjects.Program.Assign | include/CL/cl.hpp:1468-1474 | The same for an assignment, also of a wrapper to itself |
| WrapperObjects.Program.Destroy | include/CL/cl.hpp:1101-1104 | The same for a destruction |
| WrapperObjects.Program.QueryNew | include/CL/cl.hpp:1488-1490 | The same for a query into a new local wrapper |
| WrapperObjects.Program.GetInfo | include/CL/cl.hpp:1484-1495 | The same for a query returned by value: the local is retained, copied and destroyed |
| ClVector.Vector.constructor | include/CL/cl.hpp:440-443 | A valid empty vector |
| ClVector.Vector.Clear | include/CL/cl.hpp:452-456 | The contents are empty |
| ClVector.Vector.PushBack | include/CL/cl.hpp:458-465 | Appends if there is room; a full vector does not change |
| ClVector.Vector.PopBack | include/CL/cl.hpp:467-476 | Drops the last element, if any, through the wrap-around |
| ClVector.Vector.Back | include/CL/cl.hpp:661-664 | The last element |
| ClVector.Vector.CopyOf | include/CL/cl.hpp:478-485 | Equal contents in a buffer of its own |
| ClVector.Vector.Fill | include/CL/cl.hpp:487-494 | The value repeated, as often as fits |
| ClVector.Vector.Assign | include/CL/cl.hpp:496-510 | The contents become those of the right-hand side, which keeps its own |
| ClVector.Vector.Equals | include/CL/cl.hpp:512-523 | True if and only if the contents are equal |
| ClVector.Vector.AssignRange | include/CL/cl.hpp:553-561 | The first N elements of the range, also when the range lies in the vector itself |
| ClVector.Iterator.Begin | include/CL/cl.hpp:583-594 | A snapshot at index 0, or -1 when empty |
| ClVector.Iterator.End | include/CL/cl.hpp:596-606 | A snapshot at the size, or -1 when empty |
| ClVector.Iterator.Equals | include/CL/cl.hpp:608-613 | Iterators are equal if and only if index and snapshot contents are |
| ClVector.Iterator.Increment | include/CL/cl.hpp:620-623 | The next index, as a 32-bit value |
| ClVector.Iterator.PostIncrement | include/CL/cl.hpp:625-628 | Moves by its dummy argument |
| ClVector.Iterator.Deref | include/CL/cl.hpp:640-643 | The snapshot's element |
| ClVector.Visit | include/CL/cl.hpp:583-643 | The loop from begin to end terminates and yields exactly the contents in order |
| ClVector.VisitSnapshot | include/CL/cl.hpp:566-654 | The same, although the vector is cleared in between |
| ClVector.PostfixLoop | include/CL/cl.hpp:625-628 | With `it++` the end is reached, after any number of rounds, if and only if the vector is empty |
| ClVector.ToIntValue | include/CL/cl.hpp:570 | A conversion to `int` is in range, the same modulo 2^32, and nothing for values in range |
| ClString.String.constructor | include/CL/cl.hpp:337-339 | No buffer |
| ClString.String.FromChars | include/CL/cl.hpp:341-353 | A new buffer with the bytes and a zero |
| ClString.String.Assign | include/CL/cl.hpp:368-390 | A new buffer with the bytes of the source, none for an empty one, nothing for the object itself |
| ClString.String.CopyOf | include/CL/cl.hpp:392-395 | The same for a new object |
| ClString.String.Destroy | include/CL/cl.hpp:397-402 | Deletes the buffer, if any |
| ClString.RunsAreSafe | include/CL/cl.hpp:337-402 | In every state of every run no two strings share a buffer, and no buffer is read after its deletion or deleted twice |
| ClString.AssignedKeepsInv | include/CL/cl.hpp:374-387 | What a copy or an assignment leaves owns its buffer alone |
| ClString.StepTexts | include/CL/cl.hpp:341-395 | A copy and an assigned string have the source's size and text, and no other string's text changes |
| ClString.OnlyAssignmentLeaks | include/CL/cl.hpp:368-390 | A step leaks a buffer if and only if it assigns another string to one that has a buffer, and leaks just that one |
| ClString.BytewiseCopy | include/CL/cl.hpp:392-402 | If a string were a bytewise copy of another, destroying both would delete a dead buffer if and only if they have one |

## Left out

- SourcesDenoteTheirFiles: states the meaning after the build tree mapping; `MapBuildOnComponents` says when that mapping is the intended one.
- InstallationSucceeds: names with directory parts and the system's limit on chains of symbolic links are not modelled.
- HowTheLoopEnds: a loop without end is one that is still running after any number of rounds; the methods take the number of rounds they are watched for.
- Visit: for vectors of less than 2^31 elements; beyond, the signed 32-bit index overflows, which C++ leaves undefined.
- VisitSnapshot: the same.
- InstallSharedLibrary: only the branch for suffixes other than `.dll`; the claims on links are for one source.
- Reading files and splitting them into lines, option parsing, environment variables, `DESTDIR`, subprocesses: their results are parameters. A file name stands for its lines at the time of the call.
- The dictionary that `parse` returns is the parser's own, so later parses change it for the caller; the model returns its value at the time.
- White space outside the six characters that `str` strips in every version of Python: version 3 adds the codes 28 to 31 and Unicode spaces.
- SCons objects, `MergeFlags` and `ParseFlags`: the model records which flags are merged; the probe for a package is a parameter.
- In the deferred interpreter `+=` on an undefined symbol is an error, as it is in the parser, where Make would define it.
- `lookupMap` and `lookupAsm` on text: map files and listings are given as parsed entries, and the listing is taken to have the symbol's label. The layout of the printed lines is not modelled.
- Devices and platforms: their reference handlers neither retain nor release, so the counts are those of the other seven kinds of handle.
- `createKernels`, event out-parameters, raw access through `operator()` and functors: these paths do not retain or release.
- `cl::vector` of wrapper types, whose copies are bytewise; `operator[]` and `front` with an index outside; the backward iterator steps; `NDRange`.
- `new` that returns NULL in `cl::string`, and the constructor that measures a C string first.
- The flag tables, library lists, `scons/fixes.py`, the rounding functions of `c99_math.h` and all other headers: declarations or one-step facts.
