# Verified model of X11R6 build tools, condition variables and helpers

A Dafny model of the parts of the X11R6 tree in which a small amount of code has a
difficult job, and proofs of what that code is for.

**makedepend** (`xc/config/makedepend`) is a C preprocessor in miniature followed by
a transitive closure. The model has its parts and joins them:

* `IfParser`, `IfParserProofs`, `IfParserRoundTrip`, `IfParserGrouping`,
  `IfParserOperators`: the recursive-descent evaluator of `#if` expressions, on suffixes
  of the text where C has pointers; what each operator computes.
* `SymbolTable`: the sorted array of definitions in each file record, a class over an
  array with binary search, insertion and removal in place.
* `IncludePaths`, `FileRecords`, `SymbolLookup`: all the records, and the search for a
  symbol, and its removal, along an include graph that may be cyclic.
* `Dependencies`: the marking search that prints, on the records.
* `Cppsetup`, `Directives`, `DirectiveWords`: chains of definitions, what a `#` line says,
  and what each word does to a scan.
* `Engine`: the scan (`find_includes`, `gobble`, `deftype`, `add_include`) as total
  functions; `EngineTrees` compares it with the structure of `#if` groups,
  `EngineInvariants` gives what every scan keeps, `EngineInclusions` the edges it adds to
  the include graph, `EngineMethods` has the loops over a file pointer that compute the
  functions, `MainLoop` the loop over the command line.
* `IncludeOverrun`: the file name that is copied over its `#include` line.
* `EngineFollowed`: when a scan comes to its end.
* `DotDot`: the reduction of `x/..` in a path, on the array of component pointers.
* `GetLine`, `GetLineBare`: the scanner for `#` lines, which blanks comments in its
  buffer, and what it does behind a line that is only a `#`.
* `FromText`: all of these joined, from the text of the files to what is printed.

**The WIN32 condition variable** (`xc/include/Xthreads.h`): `ConditionVariable` has one
transition for every C statement of wait, signal and broadcast,
`ConditionVariableSafety` an inductive invariant, `ConditionVariableTheorems` what
callers may rely on, and exactly when, `ConditionVariableCalls` what whole calls do.

**Smaller pieces**: `Imake`, `ImakeDirectives` and `ImakeMethods` (comments carried
through the preprocessor), `MakeStrs` (string-table offsets and the arrays they point into),
`CheckTree` (names that clash when shortened), `SyncValue` (two-word arithmetic),
`FontNames` (unpacking a reply in place).

Code that computes a value is modelled by functions. Code that changes things step by
step is modelled by methods on arrays and classes, each proved to do what a function
says, and the promises of the source are proved about that function.

`dafny verify dfyconfig.toml` checks everything.

## Where the code departs from what one would expect

The model follows the code in each case.

* The evaluator of `#if` says that it follows C's order of precedence
  (`ifparser.c:32-52`). All its binary operators group to the right, and nothing
  short-circuits. `GroupsAsInCExactly` says for which operators that matters.
* A name that starts with `defined_` is read as the operator (`ifparser.c:199`).
* A stray `#else`, `#elif` or `#endif` outside any group falls through into `define`
  (`parse.c:104-115`): `StrayEndifDefines`, `StrayElseSkips`.
* The name of an included file is copied over the `#include` line itself
  (`parse.c:319-330`). A name reached through a macro may be longer than the line, and
  then overwrites the text still to be read: `DirectiveIsOverwritten`.
* A symbol whose definitions run in a circle, `#define A A` among them, is followed for
  ever when an `#if` or an `#elif` asks for its value (`cppsetup.c:207-212`), even an
  `#elif` in a group that is skipped (`parse.c:243-268`): `SelfDefinitionStopsTheScan`.
  `DecidedExactly` says when a condition is decided.
  So are the macros of an `#include` that run in a circle (`parse.c:301-314`).
* A character constant with no closing quote is read on into the next lines of the file
  (`ifparser.c:140`), so that the "expecting" error behind it never occurs:
  `UnclosedReadsOn`.
* In these cases the scan is followed up to the line, and its outcome says why it goes no
  further; `ScanIsFollowed` says when that does not happen.
* `issymbolic` is asked about a component of the empty path, or of the root, whatever
  directory the component is in (`include.c:158`), so a link further down is not
  noticed: `NestedLinkIsLost`. `KeepsEveryPlaceExactly` says when that is harmless.
* Behind a line that is just `#`, `getline` steps over a character of the next line
  (`main.c:524-530`). `GetLineBare` says when that is harmless.
* A file named on the command line gets its record without a lookup (`main.c:403`), so
  one include string may come to have two records: `RootMayRepeat`.
* signal and broadcast read the next pointer of a record they have already released
  (`Xthreads.h:142`, `149`), which is harmless exactly under the discipline of
  `SafeExactlyWhenDisciplined`.
* The borrow test of the subtraction macro is the wrong way round, and its overflow flag
  is the addition's (`sync.h:283-284`).
* The second array of the Intel BC layout has no comma between tables
  (`makestrs.c:333-339`).

## Model

| member | source | states |
|---|---|---|
| `ConditionVariableSafety.StepKeepsInv` | xc/include/Xthreads.h:128-153 | Whatever statement whichever thread executes next, the invariant over lists, semaphores, critical sections and mutexes holds again. |
| `ConditionVariableSafety.RunInv` | xc/include/Xthreads.h:128-153 | The invariant holds at every point of every interleaving of any length. |
| `ConditionVariableTheorems.ListsAreAcyclic` | xc/include/Xthreads.h:99-106 | At every point of every disciplined run each waiter list ends and visits no record twice, following the pointers themselves. |
| `ConditionVariableTheorems.WaiterOrReleased` | xc/include/Xthreads.h:128-153 | A thread that has joined and not woken is on exactly its list with semaphore 0, or has semaphore 1; nobody else has semaphore 1; and of the threads on a list exactly those have been released that the signal, or the cursor of the broadcast, inside the critical section has passed. So no wakeup is lost and none is spurious. |
| `ConditionVariableTheorems.SignalReleasesAWaiter` | xc/include/Xthreads.h:138-145 | A signal that finds the list empty leaves nobody waiting; one that does not, and every release of a broadcast, wakes a thread that is waiting on that condition. |
| `ConditionVariableTheorems.BroadcastReleasesEveryone` | xc/include/Xthreads.h:146-153 | When the loop of a broadcast is over, nobody who had joined is left waiting. |
| `ConditionVariableTheorems.UndisciplinedLosesAWaiter` | xc/include/Xthreads.h:138-145 | With two conditions and signallers that do not hold the mutex, a run of three threads in which a waiter is cut off for good. |
| `ConditionVariableTheorems.SafeExactlyWhenDisciplined` | xc/include/Xthreads.h:99-153 | No waiter is ever lost in any run if and only if signallers hold the mutex of the condition or there is only one condition. |
| `ConditionVariableCalls.WaitKeepsMutexes` | xc/include/Xthreads.h:128-137 | A whole wait, in any run: the caller holds the mutex when it calls and when the call is over, and every other mutex it held throughout; in between it is without that one mutex exactly from the unlock to the relock. |
| `ConditionVariableCalls.ReleaserKeepsMutexes` | xc/include/Xthreads.h:138-153 | A signal or a broadcast leaves the mutexes of its caller as they are, at every point of the call. |
| `ConditionVariableCalls.SignalIsFelt` | xc/include/Xthreads.h:138-145 | In every disciplined run, a signal between its call and its return releases exactly one thread that was waiting, or nobody was waiting when it looked. |
| `ConditionVariableCalls.BroadcastIsFelt` | xc/include/Xthreads.h:146-153 | In every disciplined run there is a moment within a broadcast at which nobody is waiting. |
| `IfParser.SkipSpaceLoop` | xc/config/makedepend/ifparser.c:69 | The pointer loop stops at the first character that is not white space. |
| `IfParser.ParseVariableLoop` | xc/config/makedepend/ifparser.c:73-88 | The pointer loop reads exactly the longest name. |
| `IfParser.SkipQualifiersLoop` | xc/config/makedepend/ifparser.c:103-104 | The pointer loop skips exactly the qualifiers behind a number. |
| `IfParserProofs.BandLeavesNoLone` | xc/config/makedepend/ifparser.c:387-407 | After parse_band, on any input, the pointer is not at a lone &. |
| `IfParserProofs.BorLeavesNoLone` | xc/config/makedepend/ifparser.c:410-430 | After parse_bor, on any input, the pointer is at no lone & and at no lone vertical bar. |
| `IfParserProofs.LandLeavesNoLone` | xc/config/makedepend/ifparser.c:433-453 | After parse_land, on any input, the pointer is at no & and at no lone vertical bar. |
| `IfParserProofs.Unfold` | xc/config/makedepend/ifparser.c:234-476 | Each of the nine precedence functions, on any input, parses the tighter level and then, where an operator of its own level follows, itself: the two "expecting" branches are never taken. |
| `IfParserProofs.LevelProper` | xc/config/makedepend/ifparser.c:145-476 | On any input every function returns a suffix of it, or an error other than the three unreachable ones. Or it is lost: behind the text, only if a quote may have no partner; for ever, only if some name in the text has no value. |
| `IfParserProofs.UnclosedExactly` | xc/config/makedepend/ifparser.c:114-143 | At a quote, the text is read past its end if and only if no other quote follows; otherwise a character constant is read. |
| `IfParserProofs.SuffixMeans` | xc/config/makedepend/ifparser.c:145-476 | What a function leaves of a text is the end of that text. |
| `IfParserProofs.PairedAndAnswered` | xc/config/makedepend/ifparser.c:483-490 | Whatever the text of an expression: with its quotes in pairs and a value for each of its names, evaluation comes to an end inside it. |
| `IfParserProofs.UnclosedReadsOn` | xc/config/makedepend/ifparser.c:140 | With no closing quote the line alone is left; in memory the constant ends at the first quote in the text behind, and the line is true. |
| `IfParserProofs.UnclosedIsDecidedBehind` | xc/config/makedepend/ifparser.c:140 | So a group that opens with an unclosed quote is put in force by a quote three lines further down. |
| `IfParserRoundTrip.RoundTrip` | xc/config/makedepend/ifparser.c:145-476 | Per level: on a printed tree of that level, with any blanks and redundant parentheses, followed by any text that does not continue it, the function consumes exactly the tree and returns its value; or never returns, if a variable of the tree has no value. |
| `IfParserRoundTrip.ParenthesizeFits` | xc/config/makedepend/ifparser.c:32-51 | The parentheses that printing adds make any tree fit; none are added to a tree exactly when it fits already. |
| `IfParserRoundTrip.ParenthesizeKeepsValue` | xc/config/makedepend/ifparser.c:32-51 | They do not change its value, nor whether it has one. |
| `IfParserRoundTrip.EvaluatesEveryTree` | xc/config/makedepend/ifparser.c:483-490 | For every expression tree, printed with the parentheses it needs, ParseIfExpression consumes the whole text and returns the value of the tree, or never returns when it has none. |
| `IfParserRoundTrip.ReturnsExactly` | xc/config/makedepend/ifparser.c:234-476 | A tree has a value if and only if each of its variables has one, whatever the operators and the values: nothing is short-circuited. |
| `IfParserGrouping.ChainGroupsRight` | xc/config/makedepend/ifparser.c:234-476 | a op1 b op2 c, with operators of one level, has the value that is grouped to the right. |
| `IfParserGrouping.GroupsAsInCExactly` | xc/config/makedepend/ifparser.c:234-476 | Such a chain has C's value, for all operands and callbacks, if and only if it is one of *, +, &, &&, or their duals, twice, or + followed by -. |
| `IfParserGrouping.ConjoinAssociates` | xc/config/makedepend/ifparser.c:387-407 | Two's-complement conjunction is associative. |
| `IfParserGrouping.SubtractionGroupsRight` | xc/config/makedepend/ifparser.c:265-288 | a - b - c is a - (b - c), which is what C makes of it exactly when c is 0. |
| `IfParserOperators.AndIsBoth` | xc/config/makedepend/ifparser.c:433-453 | The text of two operands with && between them evaluates to 1 if both are not 0, and to 0 otherwise. |
| `IfParserOperators.OrIsEither` | xc/config/makedepend/ifparser.c:456-476 | With two vertical bars, to 1 if one of them is not 0, and to 0 otherwise. |
| `IfParserOperators.NotIsZero` | xc/config/makedepend/ifparser.c:168-171 | With ! in front, to 1 for 0, and to 0 for anything else. |
| `IfParserOperators.MinusCancels` | xc/config/makedepend/ifparser.c:173-176 | With - in front, to what added to the operand gives 0. |
| `IfParserOperators.OrderIsOfDifference` | xc/config/makedepend/ifparser.c:321-355 | The four comparisons are decided by the sign of the difference. |
| `IfParserOperators.EqualityIsOfDifference` | xc/config/makedepend/ifparser.c:357-385 | == and != by its being 0. |
| `IfParserOperators.SumsAreSums` | xc/config/makedepend/ifparser.c:265-288 | + and - give sum and difference. |
| `IfParserOperators.ProductIsProduct` | xc/config/makedepend/ifparser.c:234-263 | * gives the product. |
| `IfParserOperators.DivisionTruncates` | xc/config/makedepend/ifparser.c:234-263 | / and %: quotient times divisor plus remainder is the dividend, and the remainder is smaller than the divisor and has the sign of the dividend, or is 0. |
| `IfParserOperators.AmpersandIsOfBits` | xc/config/makedepend/ifparser.c:387-407 | Each bit of the two's complement of the result of & is set if and only if it is set in both operands. |
| `IfParserOperators.BarIsOfBits` | xc/config/makedepend/ifparser.c:410-430 | Of a single vertical bar, if and only if it is set in one of them. |
| `IfParserOperators.ShiftLeftDoubles` | xc/config/makedepend/ifparser.c:291-319 | A shift left by 0 changes nothing, and by one place more is the double. |
| `IfParserOperators.ShiftRightHalves` | xc/config/makedepend/ifparser.c:291-319 | A shift right by 0 changes nothing, and by one place more is the half, rounded down. |
| `IfParserRoundTrip.VariablesReadExactly` | xc/config/makedepend/ifparser.c:199-226 | A name is read as a variable, whatever the callbacks, if and only if it is not read as the operator `defined`. |
| `IfParserRoundTrip.ReadAsDefined` | xc/config/makedepend/ifparser.c:199-214 | A name that starts like `defined` is read as that operator applied to its own rest. |
| `IfParserRoundTrip.NumberOf` | xc/config/makedepend/ifparser.c:91-111 | A number printed in base 8, 10 or 16, with any qualifiers, reads back as itself. |
| `SymbolTable.IncList.Define2` | xc/config/makedepend/parse.c:437-513 | Exactly one binding is set, inserted or overwritten; every other binding stays; the table stays sorted and within capacity. |
| `SymbolTable.IncList.ShiftUp` | xc/config/makedepend/parse.c:504-510 | The entries from the insertion point on move up by one, and the others stay. |
| `SymbolTable.IncList.Insert` | xc/config/makedepend/parse.c:504-512 | A new entry goes where it splits the table, also when the table is empty and the insertion point is past the end. |
| `SymbolTable.IncList.Overwrite` | xc/config/makedepend/parse.c:497-502 | Only the value of the one entry changes. |
| `SymbolTable.IncList.Grow` | xc/config/makedepend/parse.c:444-458 | Room for one more entry, and the same table. |
| `SymbolTable.IncList.Slookup` | xc/config/makedepend/parse.c:515-553 | Binary search is lookup in the map that the table denotes. |
| `SymbolTable.IncList.Remove` | xc/config/makedepend/parse.c:563-565 | Exactly one binding goes; the table stays sorted. |
| `SymbolTable.Compare` | xc/config/makedepend/parse.c:469-476 | The inline comparison of two names tells smaller, greater and equal apart. |
| `SymbolTable.InsertedMap` | xc/config/makedepend/parse.c:504-512 | Inserting where an entry belongs keeps a table sorted and adds one binding to its map. |
| `SymbolTable.RemovedMap` | xc/config/makedepend/parse.c:563-565 | Removing an entry keeps a table sorted and takes one binding from its map. |
| `IncludePaths.FoundIsReachable` | xc/config/makedepend/parse.c:374-401 | The search that marks only the files on its stack is complete on cyclic graphs: it finds a definition exactly when some file reachable without passing the stack has one, and names such a file. |
| `IncludePaths.FoundFirst` | xc/config/makedepend/parse.c:381-396 | Of several definitions it finds the file's own, or else that of the first of its inclusions that leads to one. |
| `IncludePaths.LeaveForGood` | xc/config/makedepend/parse.c:374-401 | Every path can be shortened to one that never comes back to where it starts. |
| `SymbolLookup.Fdefined` | xc/config/makedepend/parse.c:374-401 | Terminates on cyclic graphs, restores every flag, and returns the entry, and the file holding it, that the specification names. |
| `SymbolLookup.Isdefined` | xc/config/makedepend/parse.c:356-372 | The command line is searched first, then the file and all it includes; the record holding the definition is named. |
| `SymbolLookup.Undefine` | xc/config/makedepend/parse.c:555-567 | Terminates; afterwards neither the command line nor any reachable file defines the symbol, and every other binding of every table is as before. |
| `SymbolLookup.RemovedStep` | xc/config/makedepend/parse.c:561-566 | Each turn of the loop removes one definition from a finite set of them. |
| `Dependencies.VisitsReachable` | xc/config/makedepend/pr.c:78-91 | The marking search visits exactly the files reachable without passing a mark. |
| `Dependencies.VisitsOnce` | xc/config/makedepend/pr.c:84-86 | It visits no file twice. |
| `Dependencies.RecursivePrInclude` | xc/config/makedepend/pr.c:78-91 | The recursion on the records emits, in order, what the search visits, except the root, and marks exactly that; it terminates on cyclic graphs. |
| `Dependencies.PrintsEachReachableOnce` | xc/config/makedepend/pr.c:78-91 | Printed are the files the root reaches, except the root, each exactly once. |
| `Dependencies.PrintedBehindIncluder` | xc/config/makedepend/pr.c:78-91 | Each stands behind a file that includes it, if the root does not. |
| `Dependencies.PrintedDepthFirst` | xc/config/makedepend/pr.c:87-90 | All that is reached through the first inclusions of the root stands in front of all that is reached only through the others. |
| `Dependencies.IncClean` | xc/config/makedepend/include.c:301-308 | No mark is left for the next root. |
| `Dependencies.Report` | xc/config/makedepend/main.c:407-408 | From clean marks, printing and cleaning: the dependencies of the root, and clean marks again. |
| `Cppsetup.ChainsEndExactly` | xc/config/makedepend/cppsetup.c:207-212 | Following definitions from a symbol ends if and only if the specification gives a last text, and then it ends with that text. |
| `Cppsetup.EvalVariable` | xc/config/makedepend/cppsetup.c:196-215 | 0 for an unknown symbol, otherwise the number at the end of the chain of definitions; no value exactly where the chain comes back, on which C goes round. |
| `Cppsetup.DecidedExactly` | xc/config/makedepend/cppsetup.c:218-240 | The condition of an expression tree is decided if and only if no variable of it is defined in a circle. |
| `Cppsetup.SelfDefinitionIsEndless` | xc/config/makedepend/cppsetup.c:207-212 | A symbol defined as itself never is. |
| `Cppsetup.UnclosedIsJudged` | xc/config/makedepend/cppsetup.c:235-239 | A line that does not parse, for want of a closing parenthesis, is true exactly when the value read so far is not 0. |
| `Cppsetup.DefinedSeesDefinitions` | xc/config/makedepend/cppsetup.c:164-192 | The text defined(X), with any blanks, evaluates to 1 if X has a definition and at most 256 letters, and to 0 otherwise. |
| `Cppsetup.UnknownIsZero` | xc/config/makedepend/cppsetup.c:196-215 | A name without a definition evaluates to 0. |
| `Cppsetup.NumberIsRead` | xc/config/makedepend/cppsetup.c:207-214 | A name defined as a decimal number, with blanks and a sign in front and anything behind it, evaluates to that number. |
| `Cppsetup.SynonymIsSame` | xc/config/makedepend/cppsetup.c:207-212 | A name defined as another name evaluates to what that one does, or like it to nothing. |
| `FromText.PrintedCondition` | xc/config/makedepend/cppsetup.c:218-240 | However it is spaced, the line of #if with a printed expression is true, for the scan, exactly when the value of the tree is not 0 with the definitions then visible; and it is decided exactly when no variable of the tree is then defined in a circle. |
| `FromText.PairedIsDecided` | xc/config/makedepend/cppsetup.c:218-240 | Any line at all is decided, when its quotes come in pairs and the definitions of its names go down in a rank. |
| `FromText.PrintedIsDecided` | xc/config/makedepend/cppsetup.c:218-240 | A printed expression is decided when those of its variables do. |
| `FromText.SelfDefinitionStopsTheScan` | xc/config/makedepend/cppsetup.c:207-212 | Behind #define A A, the line #if A is as far as the scan goes. |
| `Directives.ScanOfLine` | xc/config/makedepend/parse.c:222-235 | However a directive is spaced, its line is cut into that word and that argument. |
| `DirectiveWords.DefineBinds` | xc/config/makedepend/parse.c:113-115 | A line of # and define, however spaced, binds the name to the value, or to 1, in the file it is in, and the scan goes on behind it. |
| `DirectiveWords.BoundIsSeen` | xc/config/makedepend/parse.c:356-372 | There the name is seen with that value, unless the command line defines it. |
| `DirectiveWords.UndefHides` | xc/config/makedepend/parse.c:116-123 | A line of # and undef: the name means nothing to the root any more, and every other name means to every file what it did. |
| `DirectiveWords.IfdefSelects` | xc/config/makedepend/parse.c:74-103 | Between lines of #ifdef X and #endif a definition is performed if and only if X means something to the root. |
| `DirectiveWords.IfndefSelects` | xc/config/makedepend/parse.c:74-103 | Between lines of #ifndef X and #endif, if and only if it does not. |
| `DirectiveWords.IfSelects` | xc/config/makedepend/parse.c:45-73 | Between lines of #if and #endif, if and only if the expression, read with all that symbols mean to the root, is true; where it is not decided the scan stops. |
| `DirectiveWords.GroupsEnd` | xc/config/makedepend/parse.c:104-112 | Inside a group, in force or skipped, a line of #else, #elif or #endif ends it; behind a skipped one the expression of an #elif is evaluated. |
| `DirectiveWords.OtherWordsDoNothing` | xc/config/makedepend/parse.c:130-153 | A line with any other word has no effect. |
| `DirectiveWords.NamelessUndefDoesNothing` | xc/config/makedepend/parse.c:117-121 | Nor has an #undef without a name. |
| `DirectiveWords.IncompleteIncludeDoesNothing` | xc/config/makedepend/parse.c:319-322 | Nor an #include of a text that is no macro and has no quote and no bracket in it. |
| `DirectiveWords.IncludeLinks` | xc/config/makedepend/parse.c:124-129 | A line of #include and a name in quotes or brackets, or a macro for that: the record known by the name, or else a new one for the file that is found, with quotes or without, is listed by the including file, once, and has been read, whatever comes after. |
| `DirectiveWords.NotFoundDoesNothing` | xc/config/makedepend/parse.c:124-129 | When the name is neither known nor found, the line has no effect. |
| `DirectiveWords.NoSlotStops` | xc/config/makedepend/include.c:243-245 | When it is found and only two slots are left, the scan stops there, with nothing changed. |
| `Engine.FindIncludes` | xc/config/makedepend/parse.c:34-157 | On every stream of lines, well nested or not, it comes to an end or says where C does not, with the measure (slots not yet searched, lines left); and no file becomes unsearched. |
| `Engine.Gobble` | xc/config/makedepend/parse.c:159-207 | Consumes at least the line it stops at, also when a condition among the lines skipped is never decided. |
| `Engine.FirstWith` | xc/config/makedepend/include.c:54-59 | The first record with the include string that has not included through a macro, or none. |
| `EngineTrees.GobbleItems` | xc/config/makedepend/parse.c:159-207 | gobble skips well-nested lines of any depth and stops only at the line that ends the group; or at the first #elif in them, however deep, that is never decided. |
| `EngineTrees.SkipTail` | xc/config/makedepend/parse.c:50-54 | After the group in force, the rest of the chain is consumed to its #endif and no further, with the same exception. |
| `EngineTrees.Selects` | xc/config/makedepend/parse.c:34-157 | On the lines of any well-nested piece of file followed by anything, find_includes performs what the structure means, in order, each condition in the state then current, and goes on with what follows; or stops where the structure stops, a condition that is never decided included, in force or skipped. |
| `EngineTrees.ScansStructure` | xc/config/makedepend/parse.c:34-157 | A whole well-nested file: exactly the selected lines are performed and every line is consumed, unless the scan stops, and then it stops where and why the structure does. |
| `EngineTrees.StrayEndifDefines` | xc/config/makedepend/parse.c:104-115 | A stray #endif binds the empty name and the scan goes on. |
| `EngineTrees.StrayElseSkips` | xc/config/makedepend/parse.c:104-115 | A stray #else does that and skips to the end of what would be its group. |
| `EngineFollowed.ScanIsFollowed` | xc/config/makedepend/parse.c:34-157 | A condition on the texts alone: if every condition is decided, the macros an #include goes through go down in a rank, and a name of a file reached through one is no longer than the line, then no scan of any lines is left before its end, unless the array of records is full. |
| `EngineFollowed.MacroEndOk` | xc/config/makedepend/parse.c:301-314 | A chain of macros whose definitions go down in rank ends, and a name of a file at its end fits. |
| `EngineFollowed.GobbleOk` | xc/config/makedepend/parse.c:159-207 | Then no skipped group stops the scan either. |
| `IncludeOverrun.ScanStopsThere` | xc/config/makedepend/parse.c:298-330 | Where a macro leads to a name longer than the line, the scan is not followed any further. |
| `IncludeOverrun.CopyName` | xc/config/makedepend/parse.c:319-330 | The copying loop writes the name and a NUL from the start of the line on, and nothing else. |
| `IncludeOverrun.TextBehindKeptExactly` | xc/config/makedepend/parse.c:319-330 | The text behind the line is kept if and only if the name is no longer than the line, or happens to be the rest of the file. |
| `IncludeOverrun.OwnNameFits` | xc/config/makedepend/parse.c:319-330 | A name that stands on the line itself always fits. |
| `IncludeOverrun.DirectiveIsOverwritten` | xc/config/makedepend/parse.c:298-330 | A definition whose value is a file name of eleven characters, a line that includes it, and a directive behind it that is lost. |
| `EngineInvariants.ScanKeeps` | xc/config/makedepend/parse.c:34-157 | On every stream of lines, a scan keeps the invariants: no file is scanned twice, no list repeats a file, every listed file has been read, slots not handed out are blank, include strings stay unique. |
| `EngineInvariants.IncludedByOk` | xc/config/makedepend/include.c:256-299 | Linking a file adds it to the list at most once. |
| `EngineInvariants.NewIncludeKeeps` | xc/config/makedepend/include.c:235-254 | A new record makes no pair of equal include strings when the lookup finds none, and otherwise one pair only, with the record that the lookup finds. |
| `EngineInvariants.AddIncludeKeeps` | xc/config/makedepend/pr.c:40-76 | add_include keeps the invariants. |
| `EngineInvariants.LinkKeeps` | xc/config/makedepend/pr.c:67-75 | A file is read when it is met for the first time and never again. |
| `EngineInvariants.UndefineIsUndefine` | xc/config/makedepend/parse.c:116-123 | The #undef of the scan is the undefine of the symbol tables. |
| `EngineInclusions.PerformedIsListed` | xc/config/makedepend/parse.c:34-157 | On every stream of lines, in all states: the lists of all records gain exactly the inclusions performed, a file read before included, and lose none. The inclusions are taken from the lines, file by file, and not from the lists. |
| `EngineInclusions.NameListed` | xc/config/makedepend/pr.c:40-76 | One #include gains the pair of the including file and the record found for the name, and all that is performed when that file is read. |
| `EngineInclusions.LinkListed` | xc/config/makedepend/pr.c:67-75 | The file is listed whether or not it has been read before, and read only then. |
| `EngineInclusions.ReachedIsIncluded` | xc/config/makedepend/pr.c:78-91 | What the lists reach is what inclusions performed lead to. |
| `EngineInclusions.PerformsStructure` | xc/config/makedepend/parse.c:34-157 | The inclusions of well-nested lines are those of the groups that their conditions select. |
| `EngineMethods.Makedepend.FindIncludes` | xc/config/makedepend/parse.c:34-157 | The loop over the file pointer computes the function, on all lines and in all states. |
| `EngineMethods.Makedepend.Groups` | xc/config/makedepend/parse.c:47-73 | The two labels and the gotos between them compute the functions for a group in force and a skipped one. |
| `EngineMethods.Makedepend.Gobble` | xc/config/makedepend/parse.c:159-207 | The skipping loop computes the function. |
| `EngineMethods.Makedepend.SkipRest` | xc/config/makedepend/parse.c:50-54 | The loop after a group computes the function. |
| `EngineMethods.Makedepend.Perform` | xc/config/makedepend/parse.c:113-129 | A single line in force does what the function says. |
| `EngineMethods.Makedepend.FollowMacros` | xc/config/makedepend/parse.c:301-314 | The loop over macros that stand for a file name ends with the end of their chain, if it has one. |
| `EngineMethods.Makedepend.AddInclude` | xc/config/makedepend/pr.c:40-76 | The lookup loop, the new record, the link and the scan compute the function. |
| `EngineMethods.Makedepend.Link` | xc/config/makedepend/pr.c:67-75 | Linking and the search-once scan compute the function. |
| `MainLoop.ReportsClosure` | xc/config/makedepend/main.c:401-409 | The report on a root lists exactly the files that inclusions performed so far lead to from it, once each, without itself, and each of them has been read; the invariants hold for the next root. Inclusions performed for earlier roots count: a header read before is not read again. |
| `MainLoop.RootMayRepeat` | xc/config/makedepend/main.c:403 | Include strings stay unique through the scan of a root if and only if its own name was not an include string already, or one of the two records has then included through a macro: its record is made without a lookup. |
| `MainLoop.RunReports` | xc/config/makedepend/main.c:401-409 | Every report of a whole run from blank records is such a report: the closure of the inclusions performed for the roots up to its own. |
| `MainLoop.Run` | xc/config/makedepend/main.c:401-409 | The loop over the command line computes all the reports. |
| `FromText.FromTextToReport` | xc/config/makedepend/main.c:401-409 | From the text of a file, read by getline and evaluated by cppsetup, to its report: the scan performs what the structure of the text means; under the condition on the texts it is followed to its end or to a full array; and the report lists exactly the files that the inclusions which that structure performs lead to, with those performed before, once each, without the file itself. |
| `DotDot.RemovePair` | xc/config/makedepend/include.c:157-167 | Removing one reducible pair anywhere does not change the outcome of the stack. |
| `DotDot.FoldIsNormal` | xc/config/makedepend/include.c:155-171 | The outcome has no reducible pair, and reducing it again changes nothing. |
| `DotDot.KeepsEveryPlaceExactly` | xc/config/makedepend/include.c:120-124 | From every directory the reduced components lead where the components led if and only if no link that is not taken for one leads away from the directory it stands in. |
| `DotDot.KeepsEveryPlaceAsAsked` | xc/config/makedepend/include.c:210-230 | The same for what issymbolic is asked, whether a name is a link in one directory. |
| `DotDot.TextLeadsToTheSamePlace` | xc/config/makedepend/include.c:125-192 | The text returned leads where the text given led; when nothing is left, the path led to where it started. |
| `DotDot.NothingIsLeft` | xc/config/makedepend/include.c:172-191 | Of x/.. the empty text is left, which names no file. |
| `DotDot.NestedLinkIsLost` | xc/config/makedepend/include.c:210-230 | What the code knows of links is not enough: a path through a link below the first component leads elsewhere after reduction. |
| `DotDot.SplitJoin` | xc/config/makedepend/include.c:172-186 | Joining names and slicing the text gives the names back. |
| `DotDot.NormalizeIsIdempotent` | xc/config/makedepend/include.c:125-192 | Reducing a path twice is reducing it once, unless nothing is left of it. |
| `DotDot.Slice` | xc/config/makedepend/include.c:133-150 | The slicing loop yields the components, runs of slashes counting as one. |
| `DotDot.CloseGap` | xc/config/makedepend/include.c:160-165 | The pointers behind a pair move down over it, the terminator too. |
| `DotDot.Reduce` | xc/config/makedepend/include.c:155-171 | The backtracking loop on the array of pointers terminates and computes the stack. |
| `DotDot.Concatenate` | xc/config/makedepend/include.c:172-186 | The concatenating loop joins the components. |
| `DotDot.RemoveDotdot` | xc/config/makedepend/include.c:125-192 | The whole function computes the reduced path. |
| `GetLine.RunIsCorrect` | xc/config/makedepend/main.c:489-538 | Without bare lines, one call returns the next # line of the blanked text, leaves the rest, and counts the newlines it consumed. |
| `GetLine.RunCommentIsCorrect` | xc/config/makedepend/main.c:490-502 | The same from inside a comment. |
| `GetLine.ReturnsTheHashLines` | xc/config/makedepend/main.c:475-539 | Without bare lines, successive calls return exactly the # lines of the text with comments and continuations blanked, in order. |
| `GetLineBare.ReturnsTheKeptLinesExactly` | xc/config/makedepend/main.c:475-539 | In every file, whatever stands behind its bare lines: the lines returned, with their places, are the # lines that are not bare, if and only if the scan and a reading of the text as it stands, which may be a character apart and one of them inside a comment, never end a different line to return at the same character. |
| `GetLineBare.CatchesUp` | xc/config/makedepend/main.c:519-531 | They are never more than one character apart. |
| `GetLineBare.ReturnsTheKeptLines` | xc/config/makedepend/main.c:519-531 | A condition on the lines alone: behind each bare line an empty one, or one that is no # line with or without its first character and begins with nothing blanked. |
| `GetLineBare.OneBareLineExactly` | xc/config/makedepend/main.c:519-531 | For a bare line and a file behind it without another, no comment directly behind it: the lines are right if and only if the character behind is a newline, or a backslash with no # behind its newline, or leaves no # line and began none that is not bare. |
| `GetLineBare.BareLineOpensAComment` | xc/config/makedepend/main.c:519-531 | With a comment directly behind a bare line, a directive is returned from inside the comment. |
| `GetLine.BareLineSwallows` | xc/config/makedepend/main.c:521-530 | Behind a bare line the scan goes on as if the next character were not in the file. |
| `GetLine.BareLineLosesALine` | xc/config/makedepend/main.c:521-530 | A file whose only directive is lost that way. |
| `GetLineBare.OneLine` | xc/config/makedepend/main.c:519-531 | A line without comments and continuations is returned if it starts with # and holds more than spaces and tabs behind it; one that holds no more is lost with the next character; any other is lost alone. |
| `GetLineBare.LastLine` | xc/config/makedepend/main.c:532-538 | The last line, with no newline, is returned whatever is behind its #. |
| `GetLine.FilePointer.Getline` | xc/config/makedepend/main.c:475-539 | The loop over the buffer, which it edits in place, computes the function: the line, what is left, and the line number. |
| `GetLine.FilePointer.EndLine` | xc/config/makedepend/main.c:519-531 | At a newline: return the line, or go on behind it, or one character further. |
| `GetLine.FilePointer.BlankOut` | xc/config/makedepend/main.c:490-502 | The comment is blanked to its end, and nothing in front of it changes. |
| `GetLine.FilePointer.Splice` | xc/config/makedepend/main.c:512-518 | A continuation becomes two blanks. |
| `GetLine.FilePointer.JustHash` | xc/config/makedepend/main.c:525-528 | Tells exactly the lines with a # and blanks only. |
| `Imake.RestoredExactly` | xc/config/imake/imake.c:658-907 | For every text without soft line ends and an identity preprocessor, the makefile is the text with at most one space after a comment #, trailing blanks trimmed and blank lines squeezed, behind the header, if and only if no line holds the comment word and no line outside comments looks like a line marker. |
| `Imake.LinesOfCleanInput` | xc/config/imake/imake.c:688-733 | Comment protection works line by line, a line after a continuation excepted. |
| `ImakeDirectives.HashLines` | xc/config/imake/imake.c:690-730 | A # line reaches the preprocessor letter for letter if the line before it ends in a backslash, or what follows the # is blanks and one of the twelve words, with a blank or the end behind it; any other has XCOMM and a blank for its #. |
| `ImakeDirectives.OtherLines` | xc/config/imake/imake.c:690-730 | A line without a # at its start always does. |
| `ImakeDirectives.MarkersVanishExactly` | xc/config/imake/imake.c:786-802 | Of the lines that start with # exactly the line markers are emptied: at most one space, perhaps the word line, a number, and nothing or a space and a quote. Any other loses only the blanks at its end. |
| `ImakeDirectives.TokenIsSpelled` | xc/config/imake/imake.c:807-812 | What is turned back into # is the comment word at the start or behind a blank, with a blank or nothing behind it. |
| `ImakeDirectives.AtSignsEndALine` | xc/config/imake/imake.c:886-890 | Two @ signs end a line and belong to none. |
| `Imake.LineCompares` | xc/config/imake/imake.c:776-846 | A line that comes back comes back exactly; any other comes back shorter. |
| `Imake.UncommentShortens` | xc/config/imake/imake.c:806-816 | Undoing the comment word leaves a line without it alone and shortens any other, but never empties it. |
| `Imake.OutputCompares` | xc/config/imake/imake.c:741-759 | Over all the lines, what is written is the restored text or shorter than it. |
| `ImakeMethods.CleanCppInput` | xc/config/imake/imake.c:688-739 | The walk over the buffer writes the protected text, or nothing when there is nothing to protect. |
| `ImakeMethods.IsDirectiveAt` | xc/config/imake/imake.c:694-730 | The word is compared while a NUL ends it, and the buffer is put back. |
| `ImakeMethods.Reader.ReadLine` | xc/config/imake/imake.c:885-906 | The cursor returns the next line as a C string and moves on; what is unread is untouched. |
| `ImakeMethods.Reader.IsMarker` | xc/config/imake/imake.c:786-802 | Recognises exactly the line markers. |
| `ImakeMethods.Reader.UncommentLine` | xc/config/imake/imake.c:806-841 | Every comment word becomes #, the rest of the line moving down in place. |
| `ImakeMethods.Reader.TrimLine` | xc/config/imake/imake.c:843-844 | The blanks at the end go, and nothing else. |
| `ImakeMethods.Reader.IsEmpty` | xc/config/imake/imake.c:776-846 | The line is edited where it stands, told empty exactly when nothing is left, and nothing behind it changes. |
| `ImakeMethods.CleanCppOutput` | xc/config/imake/imake.c:741-759 | Header, lines and squeezed blank lines, in order. |
| `MakeStrs.DefaultLayout` | xc/config/util/makestrs.c:386-402 | In the Default layout every offset in the header is that of a NUL-terminated copy of its string, and the array is a proper initialiser, for every list of tables. |
| `MakeStrs.IntelLayout` | xc/config/util/makestrs.c:299-315 | The same for one array a table with offsets of its own. |
| `MakeStrs.BcLayoutWorksExactly` | xc/config/util/makestrs.c:317-341 | In the Intel BC layout every reference finds its string if and only if no table after the second has an entry. |
| `MakeStrs.BcSecondArrayReadsExactly` | xc/config/util/makestrs.c:333-339 | The second BC array is an initialiser if and only if at most one of its tables has entries: no comma is written between tables. |
| `MakeStrs.DefaultReads` | xc/config/util/makestrs.c:386-402 | The Default array reads back as the copies of all strings. |
| `MakeStrs.DefaultIndexEntries` | xc/config/util/makestrs.c:609-622 | The running offset over all tables is assigned to every entry. |
| `MakeStrs.IntelABIIndexEntries` | xc/config/util/makestrs.c:595-607 | The running offset of each table is assigned to its entries, and ends as its length. |
| `MakeStrs.WriteSourceLine` | xc/config/util/makestrs.c:285-295 | One string: its characters, its NUL, and the comma when one is due. |
| `MakeStrs.IntelABIBCWriteSource` | xc/config/util/makestrs.c:317-341 | The loops write both arrays of the BC layout. |
| `CheckTree.StrncmpLoop` | xc/config/util/checktree.c:165-190 | The pointer loop computes the comparison. |
| `CheckTree.StrncmpComparesKeys` | xc/config/util/checktree.c:165-190 | The comparison has the sign of the first difference of the folded, zero-padded prefixes. |
| `CheckTree.FncompIsLexicographic` | xc/config/util/checktree.c:193-214 | The comparator orders names as their keys of eight characters, dot and three characters are ordered, and is 0 exactly for equal keys. |
| `CheckTree.ClashExactly` | xc/config/util/checktree.c:165-214 | Two names clash if and only if their first eight letters are the same, a capital being its small letter and a dash an underscore, and neither has an extension or the first three letters of both extensions, behind the last dot, are the same. |
| `CheckTree.FncompIsTotalPreorder` | xc/config/util/checktree.c:193-214 | It is reflexive, antisymmetric in sign and transitive, as qsort requires. |
| `CheckTree.ScanNeighbours` | xc/config/util/checktree.c:288-295 | The scan after the sort reports the equal neighbours. |
| `CheckTree.OneReportPerRepeat` | xc/config/util/checktree.c:288-295 | In a sorted list the reports number the names less the different keys. |
| `CheckTree.ClashReports` | xc/config/util/checktree.c:286-295 | Whatever order the sort leaves equal names in, the number of reports is names less keys, and a name is reported exactly when it shares its key with another. |
| `SyncValue.ComparisonsAgree` | xc/include/extensions/sync.h:254-263 | The comparisons on two words are those of the signed 64-bit numbers. |
| `SyncValue.AddIsExact` | xc/include/extensions/sync.h:268-276 | The words left are the sum modulo 2^64, and the flag is set exactly on signed overflow. |
| `SyncValue.SubtractIsRightExactly` | xc/include/extensions/sync.h:277-285 | The difference is right modulo 2^64 if and only if the low word taken away is 0; otherwise it is one high-order unit out, to the side the borrow should have gone. |
| `SyncValue.SubtractFlagIsRightExactly` | xc/include/extensions/sync.h:277-285 | For all operands, the flag tells overflow truly if and only if, with one sign, the high words less the wrong borrow keep it, and, with two, the difference does not overflow. |
| `SyncValue.SubtractFlagFails` | xc/include/extensions/sync.h:277-285 | Operands on which it is set wrongly, and on which it fails to be set. |
| `SyncValue.Add` | xc/include/extensions/sync.h:268-276 | The same for values in memory, the result being possibly one of the operands. |
| `SyncValue.Subtract` | xc/include/extensions/sync.h:277-285 | The words and the flag the macro leaves, the result being possibly one of the operands. |
| `FontNames.Unpack` | xc/lib/FS/FSFtNames.c:97-122 | For every packed list of names that fits the reply, each pointer is that of its name as a C string within the buffer of one byte more, only the length bytes after the first and the byte behind the last are overwritten, and the first pointer is one past the buffer to be freed. |
| `FontNames.ItemAt` | xc/lib/FS/FSFtNames.c:97-104 | Where each name stands in the packed list. |

## Left out

* Finding a file on disk: the order of directories in `inc_path`, `stat` and the cache of
  links are parameters (`Host.resolve`, `Symbolic`); a file is its text, or the lines that
  `getline` makes of it.
* Warnings and other messages, and the flag `failOK`, which only silences one; the
  types IFGUESSFALSE and ELIFGUESSFALSE, which nothing in this program produces.
* The layout of the printed dependencies: line folding, object names, verbose mode.
* Allocation: it succeeds. Logical capacities (`i_deflen`, MAXFILES) are modelled.
* Escapes in character constants, division by zero, shifts that C does not define and
  overflow of `long` in `#if`: the first three are parameters, numbers are unbounded.
* The CPP variant of the evaluator, the WIN32 `//` comments of `getline`, the WIN32 and
  MAGIC_MAKE_VARS parts of imake, and `KludgeOutputLine`, which is taken to change nothing.
* imake's use of the preprocessor, make and the file system; option parsing everywhere.
* makestrs: the Array-per-string and SPARC layouts, which have no offsets, the text
  around the arrays, and characters that would need an escape in C.
* checktree: everything but the search for clashes; `qsort` enters as its contract.
* The other thread packages of `Xthreads.h`; nested use of a mutex by one thread; the
  maximum count of a semaphore, which the invariant keeps at 1 or below.
* FontNames: the request and the reply's other fields; a reply that does not hold the
  names it announces.
- Engine.FindIncludes: the records are values here, updated functionally; that the records on the heap are looked up, undefined and printed the same way is shown for each of those operations (SymbolLookup, Dependencies) and not for a whole scan.
- EngineTrees.Selects: where a name has been copied over the text behind its line, or a condition has been read past its line, the scan is not followed any further; what C reads then is not the text of the file.
- EngineMethods.Makedepend.FindIncludes: where C loops for ever the method stops, with an outcome that says so; that the loop in C has no other way out is ChainsEndExactly.
- IfParserProofs.LevelProper: the converse, that an expression with an odd number of quotes is read past its end, does not hold, since the last one may never be reached; UnclosedExactly is exact where one is. In an assertion like #machine(vax) any character separates the names, so there a pair of quotes is not taken for one.
- FromText.PairedIsDecided: asks for a rank of every name on the line, also of an operand of `defined`, whose value is not looked at; PrintedIsDecided does not.
- DotDot.RemoveDotdot: asks that the path does not end in a slash, behind which C steps over the terminator, and that the components fit the array; the length of the path buffer is not modelled.
- GetLine.ReturnsTheHashLines: stated for files without bare # lines; GetLineBare has the others.
- GetLineBare.OneBareLineExactly: leaves out a comment directly behind the bare line, where only the general condition of ReturnsTheKeptLinesExactly is given.
- GetLine.FilePointer.Getline: behind a bare line at the very end of a file C looks at one byte past the buffer, which is taken not to be a #.
- SymbolTable.Compare: characters compare by their code, as unsigned characters do.
- ConditionVariableTheorems.SafeExactlyWhenDisciplined: each thread has one waiter record for life, since `_Xthread_waiter` is not part of this model.
