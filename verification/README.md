# Verified models of a snake game server and of the libraries it is built with

The repository is a server for round-based snake games (`games/`, `communication/`, `common/`) together with the
libraries that it vendors (`gflags/`, `gmock/`, `gtest/`) and its linter (`cmake/cpplint.py`). This project models
the parts of it whose correctness is hard to see from one function body, in Dafny, and proves what they are for.

| file | component | main results |
|---|---|---|
| `BipartiteMatching.dfy` | gmock's unordered-elements matcher | one pass of in-place augmenting searches gives a maximum matching, with a vertex cover of its size as the witness; a pairing is found exactly when every matcher can get an element of its own, and otherwise Hall's condition is violated |
| `FlagValues.dfy`, `CommandLineFlags.dfy`, `FlagText.dfy`, `ArgvParser.dfy` | gflags | printed flags read back, in sections too, if and only if the strings among them fit on a line; a command line sets exactly the flags it names to the values it gives them; which texts are numbers and boolean values, and the exact exceptions for unsigned flags; setting, saving, restoring and rollback; the in-place permutation of argv refines a left-to-right scan and keeps the order of flags and of words |
| `NestingStates.dfy` | cpplint's preprocessor stack | the stack machine with its checkpoints means "delete the else parts", for every effect of ordinary lines and every depth of nesting, and inside an else part it starts over from the stack in front of the group |
| `BracketMatching.dfy` | cpplint's bracket scanners | forward and backward search find the same matching relation and undo each other over any number of lines |
| `SnakeRules.dfy`, `SnakeInvariants.dfy`, `SnakeDeaths.dfy`, `SnakeGames.dfy`, `SnakeMatches.dfy` | the turn engine | invariants of every game, a rule that names exactly the snakes that die in a turn, the exact condition under which the board keeps showing all snakes and a game in which it does not, conservation of deaths, and an in-place implementation of the turn that refines the rules |
| `ExpectationOrder.dfy` | gmock's ordered expectations | the shortcuts in retiring and in explaining rest on invariants of every run, which are proved; one of the reasons given in the source holds under an exact condition, over all continuations of a run |
| `PrimeTables.dfy` | gtest's prime table samples | sieve, two trial divisions and their hybrid agree with one definition; the unbounded search ends by Euclid's theorem |
| `StringLiterals.dfy` | gtest's string printer | what is printed is read back by a C++ reader if and only if no NUL is followed by an octal digit |
| `Lobby.dfy`, `Connections.dfy` | lobby, connection queues and round promises | invariants over every interleaving of the atomic steps |

`Basics.dfy` holds what several files share. Each imperative part of the source is a class or a method over mutable fields and arrays. Its contract ties the new
state to a function on values, and the lemmas are about that function. A section of code under a mutex is one step. What the code cannot
decide by itself is a parameter: the effect of a source line on cpplint's stack (`NestingStates.Reader`), glob
matches and the contents of files and variables named by recursive flags (`FlagText.Env`), the actions that arrive
for each turn (`rounds`), and the messages that arrive before a deadline (`inTime`).

Five places where code and documentation differ, or where the code is more particular than it looks; the model follows the code:

- `KillSnake` also empties the cell the snake crashed into (`games/snake/match.cpp:114-116`). After a death the
  board can therefore miss a point of a survivor. `SnakeDeaths.TurnStaysExact` says exactly when, and
  `SnakeGames.ExactnessIsLost` is a game of four turns in which it happens.
- For the same reason the order of the players matters. Of exactly two snakes that run into the same taken cell in one
  turn, only the first one dies, unless somebody who died earlier in the turn has freed the cell; then both die. `SnakeDeaths.DeathsForetold`
  covers all cases, `SnakeDeaths.SecondRunnerSurvives` is this one.
- gmock's explanation of a refused call assumes that an expectation that was called has satisfied prerequisites
  (`gmock/src/gmock-spec-builders.cc:133-138`). `ExpectationOrder.CallVouchesExactly` says when a call vouches for them in
  every continuation of the run: always, if the expectation allows any calls at all, and otherwise only if none of the
  prerequisites can still be called once too often. `ExpectationOrder.ExcessiveCallVouchesForNothing` is a run in which it
  does not. The explanation is right nevertheless, as `ExpectationOrder.ExpectationRegistry.Explain` states.
- An unsigned flag does not take every text for what it denotes (`gflags/gflags.cc:314-321`). The three exceptions are a
  text of blanks, which is zero; a negative number whose minus stands behind white space other than blanks, which wraps
  around; and a zero with a minus in sight, which is refused. `FlagValues.UnsignedParsesExactly` proves that there are no others.
- A printed string with a line break is lost when it is read back, unless the reader fetches it from an environment
  variable that holds a line break itself; `FlagText.RoundTripExactly` and `FlagText.EnvironmentKeepsBreak` state both.

## Model

| member | source | states |
|---|---|---|
| BipartiteMatching.MatchMatrix.constructor | gmock/include/gmock/gmock-matchers.h:3259-3263 | a new matrix is the graph without edges |
| BipartiteMatching.MatchMatrix.SetEdge | gmock/include/gmock/gmock-matchers.h:3270-3272 | writing one cell of the flat array adds or removes exactly that edge of the graph |
| BipartiteMatching.MatchMatrix.NextGraph | gmock/src/gmock-matchers.cc:359-371 | flipping cells in place adds one to the matrix as a number; the result is false exactly when it wraps around to the empty graph |
| BipartiteMatching.VisitAllGraphs | gmock/include/gmock/gmock-matchers.h:3255-3277 | counting from the empty matrix until the counter wraps around visits every edge configuration exactly once and ends with the empty matrix |
| BipartiteMatching.ValueIsFaithful | gmock/include/gmock/gmock-matchers.h:3274-3277 | different matrices are different numbers below 2^cells |
| BipartiteMatching.CarryAddsOne | gmock/src/gmock-matchers.cc:359-371 | clearing the leading ones and setting the zero behind them is an increment, at any length |
| BipartiteMatching.MaxBipartiteMatchState.TryAugment | gmock/src/gmock-matchers.cc:259-285 | success restores mutual reference, matches exactly one more left node (the one searched from) and one more right node, and frees nobody; failure changes neither array and leaves marks closed under edges and partners with every newly marked right node matched; a node known to lead only to a dead end keeps its partner; the recursion ends because fewer right nodes are unmarked |
| BipartiteMatching.LinkAfterRecursion | gmock/src/gmock-matchers.cc:277-282 | mutual reference is broken at one right node when the recursive search returns, and the two assignments that follow repair it |
| BipartiteMatching.ExploredBySuccess | gmock/src/gmock-matchers.cc:210-221 | a later success revives no dead end and frees no left node, which is why each left node is tried only once |
| BipartiteMatching.ExploredByFailure | gmock/src/gmock-matchers.cc:210-221 | the marks of a failed search join the dead end, and its left node leads only there |
| BipartiteMatching.KonigCover | gmock/src/gmock-matchers.cc:207-238 | after the pass, the dead ends and the matched left nodes outside them cover every edge and are no more than the pairs of the result |
| BipartiteMatching.MatchingFitsCover | gmock/include/gmock/gmock-matchers.h:3300-3303 | no matching of a graph is larger than any of its vertex covers |
| BipartiteMatching.MatchedCoverIsSmall | gmock/include/gmock/gmock-matchers.h:3300-3303 | a cover whose nodes are matched along different pairs is no larger than the matching |
| BipartiteMatching.CoverCertifiesMaximum | gmock/include/gmock/gmock-matchers.h:3300-3303 | a matching with a cover of its size is at least as large as every other matching |
| BipartiteMatching.MaxBipartiteMatchState.Compute | gmock/src/gmock-matchers.cc:207-238 | the result is a matching of the graph, and there is a vertex cover no larger than it |
| BipartiteMatching.FindMaxBipartiteMatching | gmock/src/gmock-matchers.cc:307-310 | for every matrix the result is a matching at least as large as every other one |
| BipartiteMatching.FindPairing | gmock/src/gmock-matchers.cc:328-357 | true exactly when all matchers can be assigned different elements along edges; when false, some set of matchers has fewer candidate elements than members |
| BipartiteMatching.PerfectMatchingAssigns | gmock/src/gmock-matchers.cc:330-333 | a matching with as many pairs as there are matchers gives every matcher an element of its own |
| BipartiteMatching.SmallCoverViolatesHall | gmock/src/gmock-matchers.cc:335-343 | a cover smaller than the number of matchers exhibits a set that violates Hall's condition |
| BipartiteMatching.ViolatorExcludesAssignment | gmock/src/gmock-matchers.cc:335-343 | a set that violates Hall's condition rules out every assignment, so the witness of a false result is conclusive |
| BipartiteMatching.VerifyAllElementsAndMatchersAreMatched | gmock/src/gmock-matchers.cc:443-495 | true exactly when every element has an edge and every matcher has one |
| BipartiteMatching.AssignmentMatchesEverything | gmock/include/gmock/gmock-matchers.h:3376-3403 | on a square matrix the cheap test never rejects what the search would accept |
| BipartiteMatching.MatchAndExplain | gmock/include/gmock/gmock-matchers.h:3376-3403 | sizes, cheap test and search together accept exactly when the elements can be permuted to match the matchers one by one |
| FlagValues.ParsePrinted | gflags/gflags.cc:267-358 | the printed form of every value of a bool, int32, int64, uint64 or string flag parses back to that value |
| FlagValues.ConvertPrinted | gflags/gflags.cc:335-358 | reading the decimal form of any integer consumes all of it and gives the integer back; it is never taken for hexadecimal |
| FlagValues.DecimalDigits | gflags/gflags.cc:335-358 | the decimal form consists of digits, and their value is the number |
| FlagValues.PrintedOnOneLine | gflags/gflags.cc:335-358 | only string values can print with a line break or a NUL |
| FlagValues.PrintedForm | gflags/gflags.cc:335-358 | numbers print without a plus sign and without leading zeros, boolean values as "true" and "false" |
| FlagValues.BoolParsesExactly | gflags/gflags.cc:268-281 | for every text: a boolean flag takes it as true exactly if its lower-case form is one of five words, as false exactly if it is one of five others, and refuses it otherwise |
| FlagValues.SwitchWords | gflags/gflags.cc:784-793 | the words that stand for a flag alone and for a flag behind "no" are true and false |
| FlagValues.NumberIsPositional | gflags/gflags.cc:288-313 | reading digits from left to right gives the sum of their values by place, with letters in either case for ten and more |
| FlagValues.BaseIs | gflags/gflags.cc:292-296 | only a leading "0x" or "0X" leaves base 10 |
| FlagValues.ConvertExactly | gflags/gflags.cc:288-313 | a text is converted to a number exactly if it is white space, a sign, a prefix (in base 16) and digits that denote that number, with nothing left over |
| FlagValues.SignedParsesExactly | gflags/gflags.cc:288-313 | a signed flag takes exactly the texts that spell a number from -2^31 to 2^31 - 1, or from -2^63 to 2^63 - 1, in the base their prefix selects, and takes them as that number |
| FlagValues.UnsignedParsesExactly | gflags/gflags.cc:288-321 | for every text, an unsigned flag takes it for the number in range that it denotes, or refuses it for want of one, if and only if the text is none of three exceptions; what happens in the exceptions |
| FlagValues.UnsignedRange | gflags/gflags.cc:314-321 | the range in question is from 0 to 2^64 - 1 |
| FlagValues.UnsignedTakesNonsense | gflags/gflags.cc:314-321 | for every text of a negative number within the width of the type, it is taken exactly if no minus is in sight behind the blanks; white space alone is taken exactly if it consists of blanks |
| FlagValues.UnsignedSigns | gflags/gflags.cc:314-321 | every negative number within the width of the type is refused behind a blank and wraps around behind a tabulator |
| CommandLineFlags.CommandLineFlag.UpdateModified | gflags/gflags.cc:570-576 | the bit is set when current and default differ, and never cleared |
| CommandLineFlags.CommandLineFlag.CopyFrom | gflags/gflags.cc:578-585 | everything but the fixed part of the flag becomes that of the source flag |
| CommandLineFlags.CommandLineFlag.TryParseLocked | gflags/gflags.cc:798-829 | a value comes back only if the text is legal for the type and the validator accepts it |
| CommandLineFlags.CommandLineFlag.SetFlagLocked | gflags/gflags.cc:831-874 | the new state and the result are those of the three-mode rule, and nothing but this flag changes |
| CommandLineFlags.RunKeepsFlagHonest | gflags/gflags.cc:831-874 | over any sequence of attempts in any modes: an unmodified flag has its default, modified flags stay modified, values that passed their validator keep passing, and the current value is the first one or the outcome of an attempt |
| CommandLineFlags.RunRespectsModes | gflags/gflags.cc:831-874 | over any sequence of attempts: if none of the texts is legal nothing changes, a flag that was set keeps its value unless an attempt in the overwriting mode comes, and the default stays unless one in the default mode comes |
| CommandLineFlags.WrittenBehindIsKept | gflags/gflags.cc:570-576 | a flag that was written without the registry counts as set: attempts notice it, and only those in the overwriting mode change it |
| CommandLineFlags.FlagRegistry.RegisterFlag | gflags/gflags.cc:698-720 | a name is registered at most once |
| CommandLineFlags.FlagRegistry.SetFlagLocked | gflags/gflags.cc:831-874 | one registered flag changes as the rule says, all others keep their states |
| CommandLineFlags.FlagSaverImpl.SaveFromRegistry | gflags/gflags.cc:1637-1652 | the backups hold the state of every flag, in objects apart from those in use |
| CommandLineFlags.FlagSaverImpl.RestoreToRegistry | gflags/gflags.cc:1658-1667 | whatever happened since, every saved flag gets back value, default, modified bit and validator; flags registered later keep theirs |
| FlagText.SplitsAsWritten | gflags/gflags.cc:740-796 | for every key and every value, present or not: a registered key comes back with its value, a boolean flag alone is switched on, "no" in front of a boolean flag switches it off whatever value follows, and every other key is unknown |
| FlagText.WrittenSomehow | gflags/gflags.cc:746-755 | every argument is a key, or a key and a value, so that the previous row covers all arguments |
| FlagText.TheseCommandlineFlagsIntoString | gflags/gflags.cc:1703-1723 | the text is the concatenation of the lines of the listed flags, which the reading lemmas are about |
| FlagText.ReadPrintedFlag | gflags/gflags.cc:1243-1323 | the printed line of one flag sets exactly that flag to exactly that value and marks it modified |
| FlagText.ReadPrintedThen | gflags/gflags.cc:1243-1323 | a printed listing sets exactly the listed flags, without an error, from any state of a section that applies, and reading goes on with whatever follows |
| FlagText.RoundTrip | gflags/gflags.cc:1703-1729 | printing all flags of one registry and reading the text into another with the same names gives every flag the printed value, records no error, and leaves default, type and validator alone |
| FlagText.ReadPatterns | gflags/gflags.cc:1291-1320 | several lists of patterns in a row start one section, which applies exactly if one of them matches |
| FlagText.AnyWordIs | gflags/gflags.cc:1297-1319 | a list matches exactly if one of its words, divided by blanks, does |
| FlagText.ReadIrrelevant | gflags/gflags.cc:1268-1271 | the flags of a section for other programs are skipped, however many there are |
| FlagText.SectionsApply | gflags/gflags.cc:1243-1323 | a text of several sections sets exactly what the sections for this program set, in order; whether a section applies depends on its own patterns only |
| FlagText.SectionedTextApplies | gflags/gflags.cc:1243-1323 | the same for a whole text read from the start, without errors |
| FlagText.ReadAppends | gflags/gflags.cc:1250-1258 | whole lines are read one after the other |
| FlagText.CommentsDoNotCount | gflags/gflags.cc:1265-1266 | a comment line, wherever it stands, does not change what is read |
| FlagText.LeadingSpaces | gflags/gflags.cc:1253-1254 | white space in front of a line, blank lines included, does not change what is read |
| FlagText.UnknownLineSkipped | gflags/gflags.cc:1282-1286 | a line with an unknown flag or without a value sets nothing and records nothing |
| FlagText.IllegalValueFails | gflags/gflags.cc:1165-1168 | one value that is not legal, in a section that applies, is recorded, wherever it stands, so that the whole text fails |
| FlagText.RecursiveFlagsLead | gflags/gflags.cc:1170-1182 | exactly three flags set off what their value refers to, after they were set |
| FlagText.SetAllInOrder | gflags/gflags.cc:1109-1113 | assignments are made in order |
| FlagText.ReadValuesFit | gflags/gflags.cc:1243-1323 | whatever text is read and whatever recursive flags it sets, no flag gets a value with a line break or a NUL, provided that files and variables hold none |
| FlagText.RoundTripNeedsOneLine | gflags/gflags.cc:1703-1729 | in any registry, a string value survives printing and reading if and only if it has neither a line break nor a NUL |
| FlagText.RoundTripExactly | gflags/gflags.cc:1703-1729 | printing all flags and reading them into a registry with the same names, which does not already hold those strings that do not fit on a line, gives every flag its printed value if and only if all printed strings fit on a line |
| FlagText.EnvironmentKeepsBreak | gflags/gflags.cc:1117-1160 | the condition on variables is needed: a string whose second line asks for the flag's own value in the environment survives |
| FlagText.CommandLineFlagParser.ProcessSingleOptionLocked | gflags/gflags.cc:1162-1185 | one flag is set and, if that worked, whatever a recursive flag refers to; a failure is recorded under the flag's name |
| FlagText.CommandLineFlagParser.ProcessLineLocked | gflags/gflags.cc:1260-1320 | one line in place refines the rule for comments, flags of relevant sections and lists of patterns |
| FlagText.CommandLineFlagParser.ProcessOptionsFromStringLocked | gflags/gflags.cc:1243-1323 | the loop over the text refines the recursive reader that the round trip is about |
| FlagText.ReadFlagsFromString | gflags/gflags.cc:1731-1752 | true exactly when no error was recorded; a false result means that no flag has changed |
| ArgvParser.ScanKeepsOrder | gflags/gflags.cc:1014-1089 | flags, tail and moved words together are a shuffle of the arguments in which flags with their values keep their order, words keep theirs, and only words move |
| ArgvParser.ShufflePermutes | gflags/gflags.cc:1014-1089 | nothing is lost and nothing is duplicated |
| ArgvParser.MoveToEnd | gflags/gflags.cc:1020-1021 | in place, one element goes to the end and those behind it move up by one |
| ArgvParser.ScanStep | gflags/gflags.cc:1014-1089 | one turn of the loop consumes what the scan says and leaves the scan of the rest |
| ArgvParser.CommandLineSets | gflags/gflags.cc:1014-1089 | a command line of words and flags, each flag with its value in one argument or two, switched on alone or switched off with "no", behind one dash or two, leaves every flag with the value given last, sets nothing else, records no error, and sets nothing behind a double dash |
| ArgvParser.ScanTakes | gflags/gflags.cc:1014-1089 | such arguments are consumed one after the other, whatever follows them |
| ArgvParser.ReadArgument | gflags/gflags.cc:1036-1087 | each way of writing a flag is read as that flag with that value, and takes up its one or two arguments |
| ArgvParser.MistakesAreRecorded | gflags/gflags.cc:1042-1060 | an unknown flag, a value that is not legal, and a value that is missing at the end are recorded under the name of the flag, wherever they stand |
| ArgvParser.ScanKeepsErrors | gflags/gflags.cc:1014-1089 | an error that was recorded stays |
| ArgvParser.ParseFlag | gflags/gflags.cc:1036-1087 | an argument that looks like a flag takes up one or two arguments, or is missing its value at the end of the unread part |
| ArgvParser.PermuteAndParse | gflags/gflags.cc:1014-1089 | argv ends as program name, flags with values, the tail behind a double dash, and the moved words, each in order; the distance of the two indices decreases |
| ArgvParser.ParseNewCommandLineFlags | gflags/gflags.cc:1006-1100 | the returned index is where the part without flags starts; with removal exactly the program name and that part are left |
| NestingStates.NestingState.UpdatePreprocessorStack | cmake/cpplint.py:1825-1879 | in place, checkpoints are taken, restored and dropped as the rule for a directive says |
| NestingStates.NestingState.UpdateLine | cmake/cpplint.py:1881-1893 | a line updates the checkpoints first and then has its effect on the stack that they leave |
| NestingStates.NestingState.ProcessLines | cmake/cpplint.py:1825-1893 | after a whole document that does not end in an else part, the stack is the effect of the kept lines alone |
| NestingStates.UpdateCarries | cmake/cpplint.py:1846-1879 | after any line the machine still carries the stack of the kept lines, either as its own or in the checkpoint of the outermost else part |
| NestingStates.RunCarries | cmake/cpplint.py:1825-1879 | the same after any number of lines, from any state and at any depth |
| NestingStates.KeptIsKept | cmake/cpplint.py:1835-1841 | deleting else parts a second time deletes nothing more |
| NestingStates.ElsePartsDoNotCount | cmake/cpplint.py:1835-1841 | the final stack equals that of the document with its else parts deleted, and that one is the plain effect of its lines |
| NestingStates.WellNestedDocument | cmake/cpplint.py:1835-1841 | in particular for every well-nested document, which also leaves no checkpoint behind |
| NestingStates.ElseStartsOver | cmake/cpplint.py:1850-1861 | at every #else and #elif, the first of its group or a later one, wherever the group stands and however deep, the stack goes back to the one in front of the group's #if; from there on it is the effect of the lines since then, without their own else parts |
| NestingStates.GroupKeepsStart | cmake/cpplint.py:1846-1849 | whatever comes inside a group, what was saved at its #if and below stays |
| NestingStates.ExactlyKeptLinesCount | cmake/cpplint.py:1835-1841 | exactly the kept lines have an effect if and only if the document does not end in an else part |
| BracketMatching.FindEndOfExpressionInLine | cmake/cpplint.py:1207-1228 | the end is behind the first bracket that brings the depth to zero; without one, the depth at the end of the line is returned and never was zero |
| BracketMatching.FindStartOfExpressionInLine | cmake/cpplint.py:1277-1301 | the mirror image, going backward |
| BracketMatching.PairsAre | cmake/cpplint.py:1251-1256 | the characters that start a search, forward and backward, and their partners are those of the four pairs |
| BracketMatching.CloseExpression | cmake/cpplint.py:1231-1274 | for each of the four literal pairs of brackets: the place returned is just behind the closing bracket of that kind that closes the opening one given, in the text of all lines; without a position there is no such bracket; any other character has no partner |
| BracketMatching.ReverseCloseExpression | cmake/cpplint.py:1304-1346 | for each of the four pairs: the place returned is that of the opening bracket of that kind that opens the closing one given; without a position there is none |
| BracketMatching.ClosesIffOpens | cmake/cpplint.py:1231-1346 | being balanced for the first time going forward and going backward are the same relation between two positions |
| BracketMatching.MatchIsUnique | cmake/cpplint.py:1231-1346 | a bracket has at most one partner, on either side |
| BracketMatching.ReverseUndoesClose | cmake/cpplint.py:1231-1346 | searching forward and then backward leads back to the start, for all four kinds of brackets and any number of lines |
| BracketMatching.CloseUndoesReverse | cmake/cpplint.py:1231-1346 | searching backward and then forward leads to just behind the start |
| BracketMatching.CloseAndReturn | cmake/cpplint.py:1231-1346 | running both searches in a row returns to the opening bracket whenever the first one succeeds |
| SnakeMatches.Grid.constructor | common/grid.h:31-32 | every cell inside the rectangle has the given value |
| SnakeMatches.Grid.Set | common/grid.h:33 | exactly the cell of the given point changes |
| SnakeMatches.SnakeMatch.CreateSnakes | games/snake/match.cpp:81-92 | one snake per player, grown head by head from its corner |
| SnakeMatches.SnakeMatch.SpawnAll | games/snake/match.cpp:76-99 | board and snakes together are the start of the rules |
| SnakeGames.SpawnIsExact | games/snake/match.cpp:76-99 | with both sides greater than the starting length plus one, all snakes are inside and disjoint, the board shows them exactly, and the invariant of the game holds |
| SnakeGames.SpawnedAt | games/snake/match.cpp:78-92 | each player starts one cell in from a corner and lies along a side, point by point, with its direction |
| SnakeMatches.SnakeMatch.CheckFinished | games/snake/match.cpp:102-106 | true exactly when every snake is dead, the last one included |
| SnakeMatches.SnakeMatch.KillSnake | games/snake/match.cpp:112-118 | the snake is dead, its cells inside the board are empty unless they hold an apple, and one event is added |
| SnakeMatches.SnakeMatch.ExecuteActions | games/snake/match.cpp:121-128 | events are cleared and the live snakes turn |
| SnakeMatches.SnakeMatch.ProcessMoves | games/snake/match.cpp:130-136 | snake by snake, the cell of the tail is emptied and the body advances by one point |
| SnakeInvariants.MoveFirstEffect | games/snake/match.cpp:130-136 | the sequential loop amounts to moving all live snakes at once and emptying exactly the cells of their old tails |
| SnakeInvariants.StepKeepsChain | games/snake/match.cpp:121-136 | a turn to either side and a step keep the length, unit steps between points, and a unit direction equal to the last step |
| SnakeMatches.SnakeMatch.CheckCollisions | games/snake/match.cpp:138-158 | the loop over players refines the collision rule, player by player |
| SnakeInvariants.KillAllCulls | games/snake/match.cpp:155-157 | killing a list of live snakes empties exactly their cells and adds exactly one event for each |
| SnakeInvariants.CollideFirstCulls | games/snake/match.cpp:138-158 | the phase only kills; its events name exactly those it killed, once each; every survivor has its head on a free cell that no other survivor's head shares |
| SnakeInvariants.WhoDies | games/snake/match.cpp:139-158 | one turn of the loop: if the snake has crashed, it and, when at least two others share its head, they too die; otherwise all that share its head, if there are any others |
| SnakeInvariants.OnlyDoomedDie | games/snake/match.cpp:138-158 | nobody dies in the phase without a reason that could be seen before it: a head off the board, on a cell that is not free, or shared with another live snake |
| SnakeDeaths.DeathsForetold | games/snake/match.cpp:138-158 | in the whole phase exactly those die whom a rule names that looks only at the board and the positions after the moves: three or more with the same head all die; of two both, unless the cell is taken, when only the first one does; one dies of a blocked head. A head is blocked off the board, or on a taken cell that nobody who died before that turn has freed |
| SnakeDeaths.LoopForetold | games/snake/match.cpp:138-158 | the same before every turn of the loop over the players |
| SnakeDeaths.BlockedByTheLiving | games/snake/match.cpp:143-147 | as long as the board shows the bodies, a head is blocked exactly when it is off the board or on the body of a snake that has not died before |
| SnakeDeaths.SecondRunnerSurvives | games/snake/match.cpp:138-158 | of exactly two snakes that run into the same taken cell that nobody has freed before, the first one dies in the phase and the other one survives it |
| SnakeInvariants.DeathsBlankHeads | games/snake/match.cpp:112-118 | after the deaths a survivor has lost a cell exactly where the head of a dead snake was |
| SnakeMatches.SnakeMatch.CheckApples | games/snake/match.cpp:160-168 | snakes with their head on an apple get their tail back |
| SnakeInvariants.EatFirstEffect | games/snake/match.cpp:160-168 | exactly the live snakes with their head on an apple get back the point they lost last |
| SnakeInvariants.NothingToEat | games/snake/match.cpp:160-168 | on a board without apples that phase changes nothing |
| SnakeMatches.SnakeMatch.MarkHeads | games/snake/match.cpp:170-173 | the heads of the live snakes are written to the board, in order |
| SnakeInvariants.MarkFirstEffect | games/snake/match.cpp:170-173 | when no two survivors share a head, every head is shown and no other cell changes |
| SnakeInvariants.TurnPhases | games/snake/match.cpp:120-176 | what holds between the phases of a turn: where bodies are, who died, and that nobody eats |
| SnakeInvariants.TurnKeepsInvariant | games/snake/match.cpp:120-176 | after every turn each live snake is a chain of the starting length inside the board that just stepped in its direction, no two share a head, every cell is empty or shows a live snake that is there, and no cell holds an apple |
| SnakeInvariants.MarkingIsExact | games/snake/match.cpp:170-173 | marking makes the board exact if and only if no snake that died had its head on the body of a survivor |
| SnakeInvariants.TurnExactIfHarmless | games/snake/match.cpp:120-176 | a turn that starts with an exact board ends with one if and only if no snake that died ran into the body of a survivor; in particular when nobody died |
| SnakeDeaths.TurnStaysExact | games/snake/match.cpp:120-176 | it does so if and only if, after the moves, no live snake has its head on the body of a snake that survives by the rule |
| SnakeGames.ExactnessIsLost | games/snake/match.cpp:178-202 | a game of two players on a board of six by six, from its start to its end after four turns, that ends with a board that does not show the survivor |
| SnakeGames.TurnEvents | games/snake/match.cpp:138-158 | the events of a turn name exactly the snakes that died in it, once each, and the dead stay dead |
| SnakeMatches.SnakeMatch.PlayTurn | games/snake/match.cpp:120-176 | the phases in place refine the rules of a turn and restore the invariant |
| SnakeGames.GameKeepsInvariant | games/snake/match.cpp:186-196 | over a whole game the invariant holds, and the events of all turns name exactly the snakes that died, once each |
| SnakeGames.GameStopsOnTime | games/snake/match.cpp:186-196 | no more than the allowed turns are played; after fewer every snake is dead, and before each turn that was played some snake was alive |
| SnakeGames.GameWasPlayed | games/snake/match.cpp:186-196 | the same for every game from its start, with the number of turns as the counter of the match tells it |
| SnakeGames.ExactUntilFirstDeath | games/snake/match.cpp:120-176 | until the first death the board shows all snakes exactly |
| SnakeGames.EveryGame | games/snake/match.cpp:178-202 | for every game from its start, whatever the players do: the invariant, a board of the given size on which every cell is empty or shows a player, and exactly one event for each death |
| SnakeMatches.SnakeMatch.StartGame | games/snake/match.cpp:178-202 | the loop in place plays exactly the game of the rules, with at most `max_turns` turns; after fewer every snake is dead, and before each turn some snake was alive |
| ExpectationOrder.ExpectationRegistry.RetireAllPreRequisites | gmock/src/gmock-spec-builders.cc:95-111 | exactly the direct and indirect prerequisites are retired in addition, although retired expectations are not entered, and retirement stays closed |
| ExpectationOrder.ExpectationRegistry.AllPrerequisitesAreSatisfied | gmock/src/gmock-spec-builders.cc:113-125 | true exactly when all direct and indirect prerequisites are satisfied |
| ExpectationOrder.ExpectationRegistry.FindUnsatisfiedPrerequisites | gmock/src/gmock-spec-builders.cc:127-146 | exactly the unsatisfied prerequisites reachable through satisfied ones that were never called are added |
| ExpectationOrder.ExpectationRegistry.Explain | gmock/include/gmock/gmock-spec-builders.h:1128-1140 | in every run the explanation names a culprit exactly when some prerequisite is unsatisfied, and names only unsatisfied prerequisites |
| ExpectationOrder.ExpectationRegistry.ShouldHandleArguments | gmock/include/gmock/gmock-spec-builders.h:1092-1102 | a call is taken exactly by an active expectation that matches and whose prerequisites are all satisfied |
| ExpectationOrder.ExpectationRegistry.GetActionForArguments | gmock/include/gmock/gmock-spec-builders.h:1188-1216 | an expected call counts once and retires exactly what came before, and the expectation itself if it asked for that and is saturated; an excessive call only counts; the invariants of the run stay |
| ExpectationOrder.ExpectationRegistry.AddNewExpectation | gmock/include/gmock/gmock-spec-builders.h:1601-1620 | a new expectation, before it joins a sequence, has no prerequisites; the graph stays acyclic and the invariants of the run hold |
| ExpectationOrder.Sequence.AddExpectation | gmock/src/gmock-spec-builders.cc:794-802 | a new member gets the previous one as a prerequisite, unless it is the first or the same again; the graph stays acyclic and the members stay chained |
| ExpectationOrder.EarlierMembersPrecede | gmock/src/gmock-spec-builders.cc:794-802 | every earlier member of a sequence is a direct or indirect prerequisite of every later one |
| ExpectationOrder.PrecedesTransitively | gmock/src/gmock-spec-builders.cc:113-125 | being a prerequisite is transitive |
| ExpectationOrder.RetiredMeansAllRetired | gmock/src/gmock-spec-builders.cc:97-101 | under closure a retired expectation has all its indirect prerequisites retired, which justifies the shortcut |
| ExpectationOrder.BlamedIsUnsatisfied | gmock/src/gmock-spec-builders.cc:127-146 | what is blamed is an unsatisfied prerequisite |
| ExpectationOrder.SomethingIsBlamed | gmock/src/gmock-spec-builders.cc:133-138 | in every run, if some prerequisite is unsatisfied something is blamed, although called expectations are not entered |
| ExpectationOrder.CallKeepsOrder | gmock/include/gmock/gmock-spec-builders.h:1188-1213 | a call that was allowed keeps retirement closed, and keeps the fact that whatever allows any calls and was called has satisfied prerequisites that can no longer be called |
| ExpectationOrder.RunKeepsVouching | gmock/src/gmock-spec-builders.cc:133-138 | so does any run of calls |
| ExpectationOrder.CallVouchesExactly | gmock/src/gmock-spec-builders.cc:133-138 | in every state of every run, a call vouches for all prerequisites in every continuation if and only if the expectation allows any calls at all or none of its prerequisites can be called once too often |
| ExpectationOrder.ExcessiveCallVouchesForNothing | gmock/src/gmock-spec-builders.cc:133-138 | an instance: an expectation of zero calls was called, and a prerequisite of it was called once too often |
| PrimeTables.Factorial | gtest/samples/sample1.cc:37-44 | the product of the numbers up to n, and one for negative n |
| PrimeTables.FactorialDivisible | gtest/samples/sample1.cc:37-44 | every number from one to n divides the factorial of n |
| PrimeTables.PrimeAbove | gtest/samples/prime_tables.h:69-75 | above every number there is a prime (Euclid) |
| PrimeTables.SquareRootSuffices | gtest/samples/prime_tables.h:58-67 | a number without divisors up to its square root is prime |
| PrimeTables.IsPrime | gtest/samples/sample1.cc:47-68 | dividing by odd numbers up to the quotient decides primality, for every integer |
| PrimeTables.OnTheFlyPrimeTable.IsPrime | gtest/samples/prime_tables.h:58-67 | true exactly for the primes, for every integer |
| PrimeTables.OnTheFlyPrimeTable.GetNextPrime | gtest/samples/prime_tables.h:69-75 | from zero on, the unbounded search ends with the least prime above; for negative numbers it is never entered |
| PrimeTables.PreCalculatedPrimeTable.CalculatePrimesUpTo | gtest/samples/prime_tables.h:102-114 | the sieve marks exactly the primes of its range |
| PrimeTables.SievedMultiples | gtest/samples/prime_tables.h:106-113 | skipping a number that is already crossed out loses nothing |
| PrimeTables.PreCalculatedPrimeTable.GetNextPrime | gtest/samples/prime_tables.h:93-99 | the least prime above, or -1 exactly when the table holds none |
| PrimeTables.HybridPrimeTable.IsPrime | gtest/samples/sample8_unittest.cc:62-67 | both tables give the same answer, for every integer |
| PrimeTables.HybridPrimeTable.GetNextPrime | gtest/samples/sample8_unittest.cc:69-75 | agrees with trial division from zero on, whichever table answers; at -1 the answer depends on the table, as stated |
| StringLiterals.PrintCharsAsStringTo | gtest/src/gtest-printers.cc:262-278 | the loop with its one-bit memory prints the pieces that the reading lemmas are about |
| StringLiterals.PlainTextIsPlain | gtest/src/gtest-printers.cc:178-181 | printable text without quotes and backslashes is printed as it is, in one literal |
| StringLiterals.PrintedSpecially | gtest/src/gtest-printers.cc:146-203 | the letters of the ten special characters, and which characters are printed in hexadecimal |
| StringLiterals.BreaksWhereNeeded | gtest/src/gtest-printers.cc:269-274 | a new literal is started exactly where a hexadecimal digit follows a hexadecimal escape |
| StringLiterals.NoDigitAfterHex | gtest/src/gtest-printers.cc:269-274 | no character that could continue a hexadecimal escape is ever printed right behind one |
| StringLiterals.BreakIsTransparent | gtest/src/gtest-printers.cc:269-274 | the new literal after a hexadecimal escape does not change what is read |
| StringLiterals.ReadHex | gtest/src/gtest-printers.cc:182-185 | a hexadecimal escape with no digit behind it is read as its byte and no further |
| StringLiterals.ReadNul | gtest/src/gtest-printers.cc:148-150 | the bare octal escape of NUL swallows the octal digits that follow, at most two, and nothing else |
| StringLiterals.ReadTail | gtest/src/gtest-printers.cc:262-278 | for every string, reading gives back all of it except the swallowed digits |
| StringLiterals.CollapsedShrinks | gtest/src/gtest-printers.cc:148-150 | swallowing loses bytes exactly when some NUL is directly followed by an octal digit |
| StringLiterals.RoundTrip | gtest/src/gtest-printers.cc:262-278 | the output is always well-formed, and it reads back as the string if and only if no NUL is directly followed by an octal digit |
| Lobby.SequentialLobby.AddPlayer | games/lobby.cpp:15-19 | a new connection waits under a new number |
| Lobby.SequentialLobby.FindCandidate | games/lobby.cpp:68-80 | an open match for the number of players asked for is found whenever there is one |
| Lobby.SequentialLobby.AssignPlayer | games/lobby.cpp:82-85 | the connection moves from waiting to the match, which is started if that makes it full |
| Lobby.SequentialLobby.JoinRequest | games/lobby.cpp:40-66 | a waiting connection gets into exactly one match, as its last player, by a request for one to four players and stays waiting otherwise; the match is for that number, was not started before and is started exactly if it became full; other matches stay as they are; the invariant of the lobby holds again |
| Lobby.SequentialLobby.MatchFinished | games/lobby.cpp:34-38 | a finished match leaves with its connections, everybody else stays where they are |
| Lobby.SequentialLobby.AtMostThreeOpen | games/lobby.cpp:40-80 | in every reachable state at most three matches are open |
| Lobby.JoiningAgrees | games/lobby.cpp:82-85 | after joining, each connection is still in exactly one place |
| Lobby.JoiningKeepsOrder | games/lobby.cpp:53-76 | joining keeps every match within its number of players, started exactly when full, and open matches of different sizes |
| Lobby.FinishingKeepsOrder | games/lobby.cpp:34-38 | so does the end of a match |
| Connections.TcpConnection.Read | communication/tcp_connection.cpp:25-32 | the oldest undelivered message, if any, is delivered |
| Connections.TcpConnection.ReadMessageAsync | communication/tcp_connection.cpp:34-46 | the callback gets the oldest undelivered message at once, or waits behind the earlier ones |
| Connections.TcpConnection.ProcessMessage | communication/tcp_connection.cpp:69-83 | the oldest waiting callback gets the message, or the message waits; over every interleaving messages leave in order of arrival, callbacks are served in order of registration, nothing is lost or doubled, and messages and callbacks never both wait |
| Connections.TcpConnection.DeliveredInOrder | communication/tcp_connection.cpp:25-83 | in every reachable state the k-th delivery has handed over the k-th message received, and the messages waiting are the rest of those received, in order |
| Connections.RoundBasedPlayer.GetRoundMessageAsync | games/round_based/player.cpp:13-17 | a new promise without a value; an earlier promise for the same round is given up |
| Connections.RoundBasedPlayer.ProcessMessage | games/round_based/player.cpp:19-32 | at most one promise gets a value, it had none before, and its value is what the history of requests and messages says; other messages are put aside |
| Connections.AnswerAfterOneMore | games/round_based/player.cpp:13-32 | one more event completes an open promise exactly if it is a message of its round, and changes no other answer |
| Connections.AnswerExactly | games/round_based/player.cpp:13-32 | a promise gets a message exactly if it is the first one of its round and the round is not requested again before it |
| Connections.OpenExactly | games/round_based/player.cpp:15-26 | a round is waited for exactly if it was requested and no message of it has come since |
| Connections.UnclaimedExactly | games/round_based/player.cpp:26-29 | the messages put aside are exactly those of rounds that nobody was waiting for |
| Connections.PromiseAfterOneMore | games/round_based/player.cpp:13-32 | each promise keeps the value that the history gives it, and pends exactly as long as neither a message nor another request of its round has come |
| Connections.ArrivalCompletes | games/round_based/player.cpp:23-25 | a message that somebody waits for completes that one promise, closes the round, and leaves all promises in agreement with the history |
| Connections.AnswerIsFirst | games/round_based/match.cpp:16-35 | the answer to a fresh promise is the first message of its round among those that arrive |
| Connections.WaitForMessages | games/round_based/match.cpp:16-35 | one slot per player in the order of the players, holding the first message of the round that arrived in time, or nothing |

## Left out

- gmock: printed explanations, `MatchMatrix::Randomize` and `DebugString`; the matrix is given, element matchers are not evaluated.
- gmock: expectations are named by their position in the order of creation instead of shared heap objects, and prerequisites are added only while an expectation is the newest one; the `.After()` clause is the same step as that of a sequence.
- gmock: actions, argument matchers (a parameter), and the choice among several expectations of one mock function.
- gflags: flags of type double, since `strtod` and `%.17g` need floating point; help, version and completion flags and the exits they cause; `undefok` and reparsing, which clear recorded errors; message texts; the index of flags by address.
- FlagText.CommandLineFlagParser.ProcessSingleOptionLocked: what files and environment variables say is a parameter that lists the assignments a recursive flag leads to, so a file that names further files is flattened and the endless recursion that `--fromenv` allows is not modelled.
- gflags: glob matching against the program name is a parameter; characters are classified as in the C locale; a validator's answer depends on the value only.
- ArgvParser.ParseNewCommandLineFlags: argv is an array of string values, so the base pointer that moves when flags are removed is an index into it; the warning about a suspicious string value is left out.
- cpplint: the regular expressions that classify a line and the effect of an ordinary line on the stack are arbitrary functions. The stack is a value, so the deep copies of the source need no counterpart and block objects shared by two checkpoints do not occur. Line text returned beside the positions is left out.
- Snake: apples (no code writes one), starvation, logs and messages; turning messages into actions; more than four players, which the factory rejects. A snake is a value in the sequence of snakes that the match reassigns.
- Snake: boards too small for the starting length, on which the source writes outside the board while spawning.
- Primes: C++ integer overflow; integers are unbounded, and a next prime below zero is stated only where the source does not index outside its array.
- gtest: wide strings, trigraphs, and the character literals with their codes.
- Lobby: loggers, threads and the order in which they are joined, the destruction of a match while its thread still runs, and unlocked reads of the table of matches. Other options than the number of players do not take part in compatibility in the source either.
- Lobby.SequentialLobby.AddPlayer: the registration for the first message is not a separate step, a waiting connection simply may send one.
- Connections: sockets, text and JSON of messages, the destructor that waits for a read, and exceptions of abandoned promises. A deadline is the list of messages that make it; the call of a callback is the result of a step.
- Connections.RoundBasedPlayer.ProcessMessage: that the player registers itself with its connection again after each message is not modelled, a player simply takes messages one after the other.
- The scripts of gtest and gmock (`pump.py`, fuse, upload, doctor), file-system helpers, ports and mutex wrappers: bookkeeping, or evaluation of other languages.
