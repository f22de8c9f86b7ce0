# Verification of u-config's core

u-config is a pkg-config clone whose logic sits in one C file: explicit stacks, tries built in place, hand-written
scanners, and byte buffers. This project models that logic in Dafny and proves what it is for. Code that changes state
step by step is modelled by classes, arrays and loops, each proved against a specification function; the properties the
program promises are then proved about those functions, for all inputs.

Strings are sequences of bytes. Failures that end the program are error results. The file system is a finite map from
the name a spec asks for to the package file it leads to, with every field expanded.

## How the parts fit

- `Bytes`, `Graph`: bytes, character classes, and reachability in finite graphs.
- `Version`, `Specs`, `Packages`: version order, the spec-list grammar, packages and their real names.
- `DepthFirst`: the dependency traversal as a recursive search, and what a stack of frames has left to do of it.
  `Traversal` and `Closure`: the invariant of a run and what a finished search has established. `Process`: the loop over
  a 256-slot stack, which returns exactly what the recursive search returns, first failure included.
- `Expand`: variable expansion on a 128-slot stack against the recursive definition.
- `Dequote`, `Quoting`, `Paths`: field splitting, what quoting means and which escapes are printed, and paths that travel
  through variables and fields.
- `HashTrie`, `Environment`, `Arguments`, `StaticLink`: the hash trie, variables and the de-duplicated argument list on
  top of it, and the link line end to end.
- `PcFile`, `PcText`: the package file parser, and what files with comments, blanks and escapes anywhere are read as.
- `CommandLine`, `CommandWords`, `Utf`, `WideText`: the Windows command-line splitter, what a line of words and quoted
  pieces splits into, and the UTF-8/UTF-16 transcoders.
- `Search`: the rolling-hash search.

One promise turns out to be false of the code at an edge, and the exact condition is proved, on the command line alone:
the splitter's closing null overlaps the arguments' bytes exactly when the command line is the longest there is, 32766
units, and blanks and other units alternate in it, with no quote but at the very end (`CommandLine.SplitInto`,
`CommandLine.MostExactly`); `CommandLine.LettersUnread` gives such a line and the argument that does not read back.
`excludearg` taken alone has an edge too, which the program never meets: an excluded argument is printed all the same
exactly when it is a repeatable `-l` argument (`Arguments.ExclusionHolds`), but only `-I` and `-L` arguments are ever
excluded, and those stay out (`Arguments.SearchPathsExcluded`). White space at the end of a field makes one more, empty,
argument: that is how the code splits, and the automaton of `Dequote.FieldsPass` shows it.

## Model

| member | source | states |
|---|---|---|
| Process.Processor.Run | src/u-config.c:1488-1573 | the explicit-stack loop stays inside its slots, terminates, and returns what the recursive search returns: the same table, list and count, or the same first failure; a success is complete and ordered, and every package in it was loaded for some request whose version constraint it satisfies, unless versions are ignored; a failure has its cause |
| Process.Processor.Step | src/u-config.c:1502-1570 | one round keeps what is left to do equal to the whole search, keeps slots above the top free of packages, and comes closer to the end (unloaded names, then private packages, then work in the frames) |
| Process.Processor.Push | src/u-config.c:1531-1534 | a push that leaves `newpkg` alone still pushes a frame without a package, because slots above the top hold none |
| Process.Processor.Visit | src/u-config.c:1521-1536 | a loaded package gains exactly the top frame's flags and no other package changes; the frame moves on, and a package that turns out public gets one frame for its requires; what is left to do stays the whole search, or the stack is full and that is its failure |
| Process.Processor.Load | src/u-config.c:1538-1569 | a new package is found, checked, entered with the top frame's flags, counted once and held by that frame, and both its lists are pushed, private on top; what is left to do stays the whole search, or its failure is returned |
| Process.Processor.Enter | src/u-config.c:1538-1545 | entering changes one key of the table, the count, and what the top frame holds |
| Process.Processor.Prepend | src/u-config.c:1504-1507 | the package a frame holds goes to the head of the list, once |
| DepthFirst.RestVisit | src/u-config.c:1521-1536 | the frames left by a visit have the same left to do as before it, or the stack is full and the search fails there |
| DepthFirst.RestLoad | src/u-config.c:1538-1569 | the same for a load: waiting in the frame below and walking private, then public requires, is the recursive search |
| Closure.SearchExplained | src/u-config.c:1488-1573 | for every finite graph: loaded is exactly reachable, PUBLIC exactly the least set closed under Requires, DIRECT exactly the roots, each package listed once and with the version it was loaded for, every edge in list order unless it lies on a cycle; and each failure's cause |
| Closure.ConstraintStops | src/u-config.c:1539-1552 | wherever the search meets a package that is not loaded yet, a missing one or one whose version does not satisfy the constraint is the failure, at once |
| Closure.FirstChecked | src/u-config.c:1539-1552 | so a command line whose first package is missing, or has a version its constraint rules out, always fails with just that |
| DepthFirst.FoundIff | src/u-config.c:1539-1552 | a package in the world is found exactly if versions are ignored or its version satisfies the constraint |
| Version.ValidIsSatisfied | src/u-config.c:550-561 | the check of a comparison result is what each operator asks for, by the place of the two versions in the order |
| Closure.GoingEnds | src/u-config.c:1502-1570 | the same from any point of any run that satisfies the invariant |
| Closure.AcyclicLoadOrder | src/u-config.c:1502-1570 | without cycles every package is listed before all it depends on, directly or not |
| Closure.DeepCaused | src/u-config.c:1528-1530 | the stack runs out only if there are at least 128 packages to load |
| Closure.ChainDepth | src/u-config.c:1528-1567 | that bound is tight: of chains of privately required packages, exactly those of 128 or more are too deep; with a depth limit exactly as many are loaded as it says, or all, and always the first |
| Closure.RootsOnly | src/u-config.c:1554-1567 | without recursion, or with a depth limit of at most one, exactly the packages asked for are loaded |
| Traversal.LoadKeeps | src/u-config.c:1538-1569 | loading a package keeps the stack invariant: shape, conservation, height, links, justification, pending edges, order |
| Traversal.VisitKeeps | src/u-config.c:1521-1536 | visiting a loaded package, with or without promotion, keeps it |
| Traversal.PrependKeeps | src/u-config.c:1504-1507 | listing a package keeps it: what it depends on is loaded, and behind it unless it leads back |
| Traversal.PromotedFinished | src/u-config.c:1522-1526 | a private package met from a public frame is already in the list |
| Traversal.AgainNeverLoads | src/u-config.c:1527-1535 | a frame that re-walks a promoted package meets loaded packages only |
| Traversal.StackBounded | src/u-config.c:1496-1500 | the stack is never higher than twice the number of packages |
| Traversal.EndComplete | src/u-config.c:1571-1572 | when no frame is left the list is the table: all packages are present |
| Packages.Realname | src/u-config.c:1064-1078 | the loop for the last component finds the one after the last separator |
| Packages.PathNames | src/u-config.c:1064-1078 | the real name of a path to a package file is what stands between the last slash or backslash, if any, and the suffix |
| Packages.NameIsItself | src/u-config.c:1059-1068 | what does not end in `.pc`, or is no longer than that, is its own real name |
| Specs.ParseSpecs | src/u-config.c:753-789 | the list built front to back over tokens and arguments is the reverse of what the grammar gives, with the same first error |
| Specs.SpecsExactly | src/u-config.c:768-783 | tokens parse to a list exactly if they are that list written out and it is well-formed: the grammar is unambiguous and complete |
| Specs.PrintedSpecs | src/u-config.c:259-279 | specs written with any runs of tabs, newlines, carriage returns, spaces and commas between tokens are parsed into the same specs |
| Specs.ConstraintRead | src/u-config.c:521-535 | a name, one of the five signs, and any version, however spaced, are that one constraint |
| Specs.SpecsFail | src/u-config.c:753-789 | parsing fails exactly at an operator that no name precedes, or at an operator that ends the list, with that error |
| Specs.NextToken | src/u-config.c:264-279 | the token loops return the first run of bytes that separate nothing, and what follows it |
| Version.CompareVersions | src/u-config.c:1376-1417 | the index loops compare token lists: digit runs by length then bytes, other bytes singly |
| Version.CompareTotal | src/u-config.c:1376-1417 | zero exactly on equal strings, and swapping the arguments negates |
| Version.CompareTransitive | src/u-config.c:1376-1417 | the order is transitive |
| Version.CompareDotted | src/u-config.c:1376-1417 | on dot-joined decimals it is the order of the lists of numbers |
| Version.TokensLoseNothing | src/u-config.c:249-257 | cutting a string into digit runs and other bytes loses nothing |
| Version.FirstDifference | src/u-config.c:1376-1417 | the whole order without tokens: behind any common prefix, the digit runs that start at the first difference decide if both strings have one there or the prefix ends in a digit, the shorter being smaller; otherwise the bytes do |
| Version.OtherDecides | src/u-config.c:1382-1389 | if not both differing bytes are digits, the smaller byte is in the smaller string, unless the prefix ends in a digit and one of them goes on with its number: then that one is greater |
| Version.SmallerByteLoses | src/u-config.c:1391-1396 | the exception is real: `1a` is below `12` |
| Version.DigitsDecide | src/u-config.c:1391-1404 | if both are digits, the longer run from there on is greater, else the greater digit |
| Version.PrefixSmaller | src/u-config.c:1411-1416 | a proper prefix is smaller |
| Expand.ExpandString | src/u-config.c:1112-1171 | the stack loop prints what the recursive expander prints, up to the same first failure, for every environment; indices stay inside 128 slots and the loop terminates |
| Expand.SucceedsIff | src/u-config.c:1112-1171 | expansion succeeds exactly if every chain of references has at most 127 names, all defined |
| Expand.CycleFails | src/u-config.c:1122-1159 | a string that reaches a cycle of variables is never expanded successfully |
| Expand.DoubledExpands | src/u-config.c:1161-1167 | doubling every dollar sign is undone by expansion |
| Expand.ExpansionJoins | src/u-config.c:1118-1170 | a text that ends outside a name and not with a dollar sign expands on its own: output and first failure of what follows are appended to its own, at every level that still allows a reference and wherever there is no failure |
| Expand.PrefixExpands | src/u-config.c:1120-1131 | text without dollar signs before a string is printed as it is |
| Expand.SplitReference | src/u-config.c:1133-1144 | a name ends at the first closing brace, or takes the rest if there is none |
| Expand.ReferenceMeans | src/u-config.c:1146-1159 | a reference expands to the value in the first environment, else to that in the second, else it is the failure, and the text behind it follows |
| Expand.ShadowedIgnored | src/u-config.c:474-482 | what the second environment binds to a name of the first never changes an expansion |
| Expand.OpenReferenceExpands | src/u-config.c:1133-1144 | a reference without a closing brace takes the rest of the text as its name |
| Expand.TextExpands | src/u-config.c:1120-1170 | text with no dollar sign before a brace or another dollar sign expands to itself |
| Dequote.Dequote | src/u-config.c:1300-1372 | the byte loop returns the first token, what follows it, and whether its quotes are closed |
| Dequote.TokenEscaped | src/u-config.c:1288-1372 | every token consists of bytes that need no escape and of backslash pairs |
| Dequote.FieldsPass | src/u-config.c:1756-1775 | splitting token by token is one pass of the quote automaton over the whole field |
| Dequote.EncodePath | src/u-config.c:339-352 | encoding applies the byte code everywhere, whether or not a copy is made |
| Dequote.PathSurvives | src/u-config.c:1300-1372 | in every quoting context an encoded path adds bytes that unescape to the path, and ends no token |
| Quoting.TokenReads | src/u-config.c:1300-1372 | a token of plain, single-quoted and double-quoted parts in any order prints all their bytes, white space as a space, with a backslash before exactly the spaces and shell bytes, and unescapes to them |
| Quoting.FieldReads | src/u-config.c:1756-1775 | a field of such tokens is split into exactly them; white space at its end makes one empty argument more |
| Quoting.FieldFails | src/u-config.c:1363-1366 | a quote that nothing closes fails the field, whatever is before it |
| Quoting.PathPrinted | src/u-config.c:1300-1372 | an encoded path prints its own bytes with the same escapes in every quoting context |
| Quoting.MetaBytes | src/u-config.c:1288-1298 | the bytes escaped for a shell, besides the space; dollar signs and parentheses are not among them |
| Paths.PathExpands | src/u-config.c:1112-1171 | a reference to an encoded path expands to that path, at any depth that allows a reference |
| Paths.PathReached | src/u-config.c:1112-1171 | through any chain of values that ends in a variable holding an encoded path, and whatever text and other references are around, the encoded path is printed whole |
| Paths.PathInField | src/u-config.c:1756-1775 | wherever an encoded path is in a field, in whatever quoting, its token unescapes to what is before it, the path, and what is after it, and all other tokens are those of the text around |
| Paths.PathComesOutWhole | src/u-config.c:1452-1460 | a path bound to a variable, reached from a field through any number of values, expanded and split: the two together; only an empty path outside all tokens makes no token of its own |
| Paths.OnlyItsTokenDiffers | src/u-config.c:1756-1775 | two paths in the same place give the same number of tokens, which differ in the path's token only |
| HashTrie.ComputeHash | src/u-config.c:234-242 | the loop computes the 32-bit FNV-1a hash with wrap-around |
| HashTrie.KnownHashes | src/u-config.c:234-242 | published hash values |
| HashTrie.DigitsRunOut | src/u-config.c:457-463 | after sixteen digits the consumed hash is zero and every further digit too |
| HashTrie.CollisionShares | src/u-config.c:457-463 | names whose hashes agree share their whole path, however deep |
| HashTrie.Trie.Walk | src/u-config.c:457-463 | the walk finds the node of a name, or the free slot on its path |
| HashTrie.Trie.Insert | src/u-config.c:455-469 | an existing node is returned unchanged; a new one goes to a free slot on the path of its hash; no other node moves |
| HashTrie.Trie.Bind | src/u-config.c:1672-1690 | binding updates the finite map the trie stands for and moves no node |
| HashTrie.Trie.Lookup | src/u-config.c:457-465 | looking a name up without leave to create answers as the finite map does |
| Environment.Lookup | src/u-config.c:474-482 | a name in the first trie has its value there, any other name that in the second, or none; as in the maps that expansion is stated over |
| HashTrie.Replay | src/u-config.c:637-651 | any sequence of lookups and insertions is answered as a finite map would, and earlier nodes keep their place |
| Arguments.InPositionKeeps | src/u-config.c:1655-1696 | the recorded position selects, of a repeatable argument, the last `-l` and the first of any other, no excluded one, and everything else each time |
| Arguments.Args.Append | src/u-config.c:1672-1683 | appending records the position the specification records |
| Arguments.Args.Write | src/u-config.c:1777-1794 | without MSVC mode, the kept occurrences are printed in order with a delimiter before all but the very first argument |
| Arguments.OutputOnce | src/u-config.c:1655-1696 | a repeatable argument that is not excluded is printed exactly once |
| Arguments.RepeatableFlags | src/u-config.c:1655-1670 | repeatable are exactly `-pthread` and the six flags with something attached |
| Arguments.ArgumentPrinted | src/u-config.c:1672-1696 | an argument that is not excluded is printed |
| Arguments.PrintedEachTime | src/u-config.c:1672-1696 | one that is not repeatable either is printed as often as it comes |
| Arguments.OutputIdempotent | src/u-config.c:1655-1696 | de-duplicating the output again changes nothing |
| Arguments.ExclusionHolds | src/u-config.c:1672-1696 | an excluded argument stays out exactly if it is not a repeatable `-l` argument |
| Arguments.ExclusionForgotten | src/u-config.c:1672-1696 | of these functions alone: an excluded `-lx` is printed |
| Arguments.SearchPathsExcluded | src/u-config.c:1721-1752 | if only `-I` and `-L` arguments are excluded, as the program does, no excluded argument is printed |
| Arguments.LineSplits | src/u-config.c:1777-1794 | splitting the printed line at unescaped delimiters gives back the printed arguments |
| StaticLink.AppendField | src/u-config.c:1756-1775 | exactly the field's arguments that pass the filter are appended, in order; fails exactly if a quote is left open |
| StaticLink.PrintLibs | src/u-config.c:2175-2192 | without MSVC mode, the link line is the de-duplicated arguments of all packages in load order, private ones included for static linking and those of private packages left out otherwise, after however many arguments were printed before |
| StaticLink.PrintedExactly | src/u-config.c:2175-2192 | printed are exactly the arguments that pass the filter and are in some package's `Libs`, if it is public or linking is static, or in its `Libs.private`, if linking is static, but for the excluded |
| StaticLink.PublicFirst | src/u-config.c:2181-2186 | with `--static`, what only one package's `Libs` hold is printed before what only its `Libs.private` hold |
| StaticLink.FiltersByText | src/u-config.c:1584-1605 | which arguments each filter passes, by their first two bytes |
| StaticLink.LinkLineSplits | src/u-config.c:1756-1794 | the link line splits into exactly the kept arguments |
| StaticLink.LinkOrder | src/u-config.c:2175-2192 | for a finished search, with `--static` or without, a `-l` argument only one package mentions is printed before those its direct dependency mentions, unless the dependency leads back |
| PcFile.ParsePackage | src/u-config.c:791-895 | the pointer loops bind what the recursive grammar binds, with the same first duplicate |
| PcFile.SpanValue | src/u-config.c:860-882 | the value loop ends where the grammar says, before comments and trailing blanks, and knows when escapes must be removed |
| PcFile.StripEscapes | src/u-config.c:690-710 | the copying loop leaves out escaped newlines and the backslashes before hash signs, nothing else |
| PcText.FileParses | src/u-config.c:791-895 | a file whose lines are blank, comments, noise, or bindings with blanks around the name, blanks, escaped newlines and a comment around the value, and newlines escaped anywhere in it, binds what its lines bind, in order; the last line needs no newline |
| PcText.FileReadsBack | src/u-config.c:791-895 | the round trip: each variable and known field of such a file is read back with its value and nothing else is bound, or the first repeated name is reported |
| CommandLine.SplitInto | src/cmdline.c:20-125 | the splitter, with pushback, retraction and a bounded buffer, leaves arguments that all read back as the automaton's exactly if the command line is not one of the longest in which blanks and other units alternate |
| CommandLine.MostExactly | src/cmdline.c:1-2 | exactly those command lines have 16384 arguments, and none has more |
| CommandLine.RunTight | src/cmdline.c:37-105 | from a state that has wasted no unit, none is wasted exactly if blanks and other units alternate |
| CommandLine.LettersUnread | src/cmdline.c:122-123 | on one such line the second argument does not read back once the closing null is written |
| CommandWords.LineSplits | src/cmdline.c:20-125 | any line of a program name, bare or quoted, and tokens of plain text, backslashes before an escaped quote, quoted stretches and doubled quotes splits into what each token spells, in WTF-8 |
| CommandWords.WordsSplit | src/cmdline.c:37-119 | words without blanks and quotes, with any backslashes and surrogates, are the arguments |
| CommandWords.SplitUndoesQuoting | src/cmdline.c:29-123 | splitting a quoted command line gives the WTF-8 forms of the arguments it was quoted from |
| CommandLine.SplitBounded | src/cmdline.c:1-2 | at most 1 + L/2 arguments and 3L + 1 bytes for L units |
| CommandLine.RetractBounded | src/cmdline.c:67-78 | retraction never goes below the start of the current argument |
| CommandLine.Splitter.Take | src/cmdline.c:37-105 | one character moves the state, the backslash count and the output as the automaton says, and asks for the character again exactly when the code pushes it back |
| CommandLine.Splitter.Retract | src/cmdline.c:67-78 | moving the output pointer back drops that many bytes of the last argument only |
| CommandLine.Splitter.PutEncoded | src/cmdline.c:107-119 | the four encoding cases write the bytes of one character |
| CommandLine.MostArguments | src/cmdline.c:1-2 | one command line of the greatest length has 16384 arguments |
| CommandLine.MostSecond | src/cmdline.c:122-123 | with 16384 arguments the second is not empty and lies under the closing null |
| Utf.DecodesExactly | main_windows.c:59-102 | the decoder takes exactly the sequences of section 4 of RFC 3629 whole, and one byte as a replacement otherwise |
| Utf.Encode8Decodes | main_windows.c:105-123 | an encoded code point decodes to itself, whatever follows |
| Utf.CodePointRead | main_windows.c:59-102 | a well-formed sequence is decoded to the number it stands for, digit by digit in base 64 |
| Utf.Encode16Decodes | main_windows.c:130-173 | the same for UTF-16 |
| Utf.PairRead | main_windows.c:130-157 | a surrogate pair is decoded to the number it stands for, any other surrogate to the replacement character, any other unit to itself |
| Utf.ToWideArray | main_windows.c:175-194 | the counting pass equals the writing pass, also on malformed input |
| Utf.FromWideArray | main_windows.c:196-215 | the same the other way |
| Utf.Utf8RoundTrip | main_windows.c:175-215 | valid UTF-8 survives the way to UTF-16 and back |
| Utf.Utf16RoundTrip | main_windows.c:175-215 | well-formed UTF-16 survives the way to UTF-8 and back |
| Utf.ToWideValid | main_windows.c:175-194 | whatever comes in, well-formed UTF-16 comes out |
| Utf.FromWideValid | main_windows.c:196-215 | whatever comes in, valid UTF-8 comes out |
| WideText.Wtf8IsUtf8 | src/cmdline.c:107-119 | on well-formed UTF-16 the splitter's transcoding is that of the rest of the program |
| WideText.SurrogateEncoded | src/cmdline.c:107-119 | an unpaired surrogate becomes the three bytes of its number, which are no UTF-8 |
| WideText.QuotedArgumentsComeBack | src/cmdline.c:20-125 | arguments quoted, split and transcoded back are the same |
| Search.Find | main_test.c:154-183 | the first occurrence, or the haystack's length exactly if there is none; the wrapped hash is the window's polynomial hash throughout |
| Search.Weight | main_test.c:161-166 | repeated squaring gives 257 to the power, modulo 2 to the 32 |
| Search.PolynomialFront | main_test.c:168-181 | the hash of a window without its first byte, which the loop subtracts |

## Left out

- Platform code, entry points and I/O: mapping and listing files, writing, environment, memory allocation and its failure.
- `findpackage`, the search path and `setprefix`: they decide what the map from spec names to packages holds.
- The option chain, usage text, error wording, `list`, `msvcize` and number parsing: easy claims only. The name in the message about too many nested packages is a field of the package file; the model reports the real name.
- The `--cflags` line: the same loop over two other fields, without the test for public packages.
- `insertsyspath`: the excluded arguments are a parameter. Arguments in MSVC style (`msvcize`) are not modelled.
- A limited `--maximum-traverse-depth`: the search is modelled with any limit, but completeness and order are stated for limits the stack cannot reach.
- That every version constraint holds: the code checks the one that first loads a package, and so does the model.
- The package table in `Process` and the variables in `Expand` and `PcFile` are maps; that the trie behaves as one is proved apart in `HashTrie`.
- HashTrie.Trie.Insert: a node's four child pointers are a sequence the node holds, so writing through a pointer to a pointer is modelled as replacing that sequence.
- The argument list is a sequence, so appending through a tail pointer is not modelled.
- CommandLine.SplitInto: pointers into the shared buffer are indices, and the two halves are two arrays; the overlap of the closing null with the bytes is modelled by clearing their first bytes.
- Closure.DeepCaused: one direction only, since whether the stack runs out depends on the shape of the graph; `Closure.ChainDepth` shows that the bound is tight, and the recursive search says exactly when the stack runs out.
- Paths.PathComesOutWhole: not for paths with quote bytes or bytes 0xf8 to 0xfe, which splitting takes for quotes and for its own codes.
- `\"` inside double quotes: the branch cannot be reached, because a backslash is escaped first; it is modelled, and nothing is claimed of it.
- The output buffers, `prependpath`, and `s8sort_` in main_test.c.
