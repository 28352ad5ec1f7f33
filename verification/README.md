# hostcontrold: a verified model

The repository holds hostcontrold, a daemon that wakes a server when a client needs it and shuts it down when
nobody does, together with the C++ style checker and the libraries it is built with. This project models the parts
whose correctness is not visible from any single line, and proves what they are for.

| file | models |
|---|---|
| `Brackets.dfy`, `LineText.dfy` | the grammar of balanced words over `()[]{}`, its pushdown reading, mirror images; a file as lines and as one text |
| `ForwardScan.dfy`, `ReverseScan.dfy`, `TextInside.dfy`, `AngleBrackets.dfy` | cpplint's three bracket matchers, from round, square and curly brackets and from angle brackets |
| `CollapseStrings.dfy` | cpplint's loop that empties string literals and drops digit separators |
| `MultiLineComments.dfy` | cpplint's in-place blanking of multi-line comments |
| `Preprocessor.dfy` | cpplint's checkpoints of the nesting stack at `#if`, `#else`, `#endif` |
| `IncludeOrder.dfy` | cpplint's include-order state machine |
| `Controller.dfy`, `ServerControllers.dfy` | the server controller as a state machine over its runs; the class, the file system, the main loop with several controllers |
| `Benchpress.dfy` | the schedule of iteration counts of the benchmark library |
| `ArgvParser.dfy`, `WordWrap.dfy` | the command-line parser, which compacts `argv` in place, and the word wrap of its help text |
| `WakeOnLan.dfy` | the parser for hardware addresses and the magic packet |
| `Chars.dfy` | character classes and a few string functions |

Loops and objects are methods and classes as in the source. Each method is proved equal to a function on
values or to a property; the theorems about these functions stand in the same module. Where a lemma's proof is
to be found in its body, `{:induction false}` keeps Dafny from trying induction by itself.

## Main results

- Started on `(`, `[` or `{`, the forward matcher finds exactly the end of the bracketed expression of the
  grammar, over any number of lines and whatever `<`, `>`, `->`, `<<`, `;` and `operator` stand in between.
  Line breaks cannot change the answer. The backward matcher finds exactly the start, and the two are inverse to
  each other. The third matcher, written independently, agrees with the first.
- From `<` and `>`, both matchers find the partner in texts over four kinds of brackets, operators that contain
  `<` or `>` being passed over as each direction does; a semicolon or a foreign bracket ends the search.
- At every line of every file, well nested or not, the nesting stack is what the lines on a path make of the initial
  one: an alternative goes on from before its `#if`, an `#endif` from the end of the first branch. For properly
  nested conditionals the result is that of the first branches alone.
- Collapsing quotes yields a normal form, leaves exactly the normal forms alone, and on every line empties
  the literals, drops the digit separators and keeps everything else.
- Comment blanking changes exactly the lines of terminated comments and is idempotent.
- The include-order machine, which never looks ahead, complains exactly if no orderly reading of the headers exists;
  which orders these are is also said without its sections.
- For the controller, over all runs with arbitrary answers of the environment: command rate, hysteresis and
  bounded response; and exactly when it sends which command, in terms of what the run has seen before.
- For the daemon from its start, with any number of controllers on one file system: each one goes through the run
  it would go through alone and keeps to its command rate. Once all controllers are created, every directory shows
  a status at every moment. After every run it is the right one for all who use it, whatever the world does, if and
  only if the directory is configured once.
- The benchmark loop always makes progress, although `round_up` can round down; it takes at most 26 rounds after
  the first, and a benchmark that takes 26 exists.
- In-place argv compaction refines a filter with exactly one role for every argument. The options set, their texts,
  and the failure, if any, are told argument by argument; parsing succeeds exactly if no option has a fault.
- Word wrap has one result for every description and keeps the text. When its ranges are well formed, and when
  its lines fit the width, are exact conditions that a caller can check on the description. The output consists of
  one line per row, indented as asked for.
- Addresses are accepted exactly if they are spelled in the accepted way; printing and parsing is a round trip; the
  packet is determined by the address exactly if that spells six bytes.

## Where the code and its description differ

- `round_up` (benchpress.hpp:323-333) does not round up strictly between 10^(k+1) and 11 * 10^k, for k >= 1: 101
  becomes 100. `Benchpress.RoundUpFallsShort` gives the exact condition; progress rests on the growth by half.
- `format_description` (cxxopts.hpp:850-911) can form a range whose end lies before its beginning, after a
  break at a space that is followed by a run longer than the width allows. `WordWrap.WrapsIffWellWrapped` gives
  the exact condition, `WordWrap.LongRunInverts` an input.
- The caller passes the widest allowed description (cxxopts.hpp:1235-1241), but rows can be longer than that.
  `WordWrap.LinesFitExactly` gives the exact condition under which no line of the output is, `WordWrap.LineLength`
  the bound 2 * width + 2, and `WordWrap.LongestLine`, for every width, a description with a line of that length.
- `ConvertMacStringToBinary` (wake_on_lan.cpp:98-151) accepts strings that end before the sixth byte, as
  `WakeOnLan.EmptyAddressAccepted` shows. `WakeOnLan.SixBytesIffSpelled` says exactly which strings give six
  bytes; for all others that are accepted the packet depends on what the buffer held (`WakeOnLan.PacketDetermined`).
- Nothing keeps two configured controllers from using one directory (main.cpp:90-94). Its status is then that of
  one of them. After a given run it is right for all exactly if `AgreedAfter` holds (`ServerControllers.RunDaemon`),
  which is the case in every run if and only if the directory is configured once
  (`ServerControllers.AlwaysAgreedIffOwn`); `ServerControllers.SharedDirectoryFails` gives the failing runs. While
  the controllers are being created, one that shares a directory removes both status files for a moment
  (server_controller.cpp:30-31).
- A bare digit is one byte only before a colon or at the end of the string (wake_on_lan.cpp:128), and behind a
  single digit a second colon is skipped as well (wake_on_lan.cpp:135-148); `WakeOnLan.ParsedIsSpelled` has both.

## Model

| member | source | states |
|---|---|---|
| ForwardScan.FindEndOfExpressionInLine | cmake/cpplint.py:1735-1810 | the loop over one line, with its stack, agrees with the scanner function that the theorems are about, for any starting position and stack |
| ForwardScan.PopTentative | cmake/cpplint.py:1772-1773 | the inner loop removes exactly the tentative brackets on top |
| ForwardScan.CloseExpression | cmake/cpplint.py:1813-1854 | from `(`, `[` or `{` the place returned is the end of the bracketed expression of the grammar in the text of all lines; (line, number of lines, -1) is returned exactly if none starts there; from `<` and elsewhere the result is that of the scanner function |
| ForwardScan.StepErases | cmake/cpplint.py:1748-1807 | once a real bracket is at the bottom, every case of the scanner, including `<`, `<<`, `->`, `operator<` and `;`, moves the stack without its tentative entries as a plain three-bracket reading moves; it ends the scan only where the plain reading returns to the empty stack or fails |
| ForwardScan.LineErases | cmake/cpplint.py:1748-1810 | the same for the rest of a line |
| ForwardScan.ClosingIsSoundAndComplete | cmake/cpplint.py:1813-1854 | soundness and completeness of the forward matcher for the grammar, any number of lines |
| ForwardScan.ClosingOffsetIsTheEnd | cmake/cpplint.py:1813-1854 | the offset found is `end` if and only if the text from the bracket to `end` is a bracketed expression |
| ForwardScan.LineBreaksDoNotMatter | cmake/cpplint.py:1845-1851 | two ways to break the same text into lines give the same offset |
| ForwardScan.EndsWithOperatorIff | cmake/cpplint.py:1761 | the expression matches exactly a text that ends in the word `operator` and blanks |
| Brackets.BalancedIffFedToEmpty | cmake/cpplint.py:1750-1784 | the grammar and the stack discipline of the matchers accept the same words |
| Brackets.EnclosedIffFirstReturn | cmake/cpplint.py:1779-1781 | returning at the first empty stack means having read exactly one bracketed expression |
| Brackets.EnclosedPrefixUnique | cmake/cpplint.py:1813-1831 | at most one bracketed expression starts at a position, so the answer is unique |
| Brackets.EnclosedIffShortestBalancedPrefix | cmake/cpplint.py:1813-1831 | the position that closes an expression is the end of the shortest nonempty balanced prefix |
| Brackets.EnclosedIffMirrorEnclosed | cmake/cpplint.py:1860-1861 | reading backward with brackets turned around recognizes the same expressions |
| ReverseScan.StepBack | cmake/cpplint.py:1875-1929 | one turn of the backward loop: stack or outcome, and the next position, in every case |
| ReverseScan.FindStartOfExpressionInLine | cmake/cpplint.py:1857-1931 | the backward loop, with the extra steps to the left, agrees with the backward scanner function |
| ReverseScan.ReverseCloseExpression | cmake/cpplint.py:1934-1969 | from `)`, `]` or `}` the place returned is the start of the bracketed expression that ends there; (line, 0, -1) is returned exactly if none ends there |
| ReverseScan.SkippedIsNeutral | cmake/cpplint.py:1883-1894 | what the extra step to the left jumps over is never a bracket |
| ReverseScan.StepErasesBack | cmake/cpplint.py:1874-1929 | erasure for the backward scanner, on the mirrored text |
| ReverseScan.StrideErasesBack | cmake/cpplint.py:1883-1894 | the same for a step together with the character it jumps over |
| ReverseScan.OpeningIsSoundAndComplete | cmake/cpplint.py:1934-1969 | soundness and completeness of the backward matcher for the grammar |
| ReverseScan.OpeningIsTheStart | cmake/cpplint.py:1934-1969 | going back leads to a position if and only if the text in between is a bracketed expression |
| ReverseScan.MatchersAreInverse | cmake/cpplint.py:1813-1969 | the forward matcher leads from an opening bracket to just behind a position if and only if the backward matcher leads from there back to it |
| AngleBrackets.WordScanned | cmake/cpplint.py:1748-1810 | over a phrase, in which every `<` and `>` is a bracket with its partner, part of `<<`, or passed over in `->` or behind `operator`, the forward scan comes back to its stack, across lines |
| AngleBrackets.FindsAngleEnd | cmake/cpplint.py:1813-1854 | from any of the four opening brackets in front of a phrase, with its closing bracket behind it, that closing bracket is found |
| AngleBrackets.NoAngleEnd | cmake/cpplint.py:1772-1775 | from `<`, a semicolon or a closing bracket of another kind behind a phrase ends the search without a place |
| AngleBrackets.NothingToMatch | cmake/cpplint.py:1837-1838 | from other characters, from `<<` and from `<=` nothing is found; neither is anything backward from other characters |
| AngleBrackets.WordScannedBack | cmake/cpplint.py:1874-1931 | the same for the backward scan, which jumps over `->`, ` >= `, `operator>` and `<<` |
| AngleBrackets.FindsAngleStart | cmake/cpplint.py:1934-1969 | from any of the four closing brackets the opening one is found |
| AngleBrackets.NoAngleStart | cmake/cpplint.py:1907-1927 | back from `>`, a semicolon or an opening bracket of another kind ends the search without a place |
| TextInside.GetTextInside | cmake/cpplint.py:4870-4900 | None without a match of the start pattern; otherwise the text returned lies between the bracket and its partner by the grammar and by the forward matcher, and None exactly if there is no partner |
| TextInside.StepExpected | cmake/cpplint.py:4887-4895 | the stack of expected closing brackets is the image of the plain reading's stack |
| Preprocessor.NestingState.UpdatePreprocessor | cmake/cpplint.py:2748-2802 | new stack and checkpoints for each of the three directives, also when none is open |
| Preprocessor.DirectiveIs | cmake/cpplint.py:2769-2788 | which lines are directives of which kind: blanks, `#`, blanks, one of the words, a word boundary |
| Preprocessor.NestingState.Update | cmake/cpplint.py:2826-2827 | directives first, then the effect of the line on the stack |
| Preprocessor.NestingState.UpdateAll | cmake/cpplint.py:2748-2827 | over properly nested lines the object ends with the stack of the first branches and the checkpoints it began with; from no checkpoints, over any lines, with the stack of the path |
| Preprocessor.RunKeepsFirstBranches | cmake/cpplint.py:2758-2764 | for any lines, stray directives and open conditionals included: the stack to continue with is what the lines outside alternative branches make of the initial stack, and the checkpoints are those of the open conditionals |
| Preprocessor.StepResumes | cmake/cpplint.py:2769-2802 | one line keeps this, whatever it does to the stack |
| Preprocessor.CheckpointsRecall | cmake/cpplint.py:2772-2781 | every checkpoint holds the stacks from the places where its `#if` and its first alternative stood |
| Preprocessor.StackFollowsPath | cmake/cpplint.py:2758-2802 | for any lines, also inside alternative branches and with stray directives: the current stack is what the lines on the path make of the initial one |
| Preprocessor.AlternativeStartsOver | cmake/cpplint.py:2751-2756 | whatever stands in the branches before, the stack at an `#else` or `#elif` is the one from before its `#if` line |
| Preprocessor.OuterCheckpointsUntouched | cmake/cpplint.py:2775-2799 | lines without stray directives never look at checkpoints that were there before |
| Preprocessor.NestedLinesTakeFirstBranches | cmake/cpplint.py:2758-2764 | a properly nested stretch, met in any state, restores the checkpoints and does what its first branches do |
| Preprocessor.StrayDirectiveIgnored | cmake/cpplint.py:2785-2802 | unmatched `#else`, `#elif` and `#endif` change nothing |
| CollapseStrings.CollapseRound | cmake/cpplint.py:1692-1730 | one round of the loop: what is emitted and what is left |
| CollapseStrings.NextRound | cmake/cpplint.py:1692-1730 | every round leaves less of the line, also when a digit separator is followed by nothing that continues the literal |
| CollapseStrings.CollapseQuotes | cmake/cpplint.py:1690-1732 | the loop terminates; its result is the collapsed line, and it is in normal form |
| CollapseStrings.CollapseIsCollapsed | cmake/cpplint.py:1690-1732 | the result is in normal form, also behind text already emitted |
| CollapseStrings.CollapsedIsFixed | cmake/cpplint.py:1690-1732 | a line in normal form is left alone |
| CollapseStrings.FixedIffCollapsed | cmake/cpplint.py:1690-1732 | exactly the lines in normal form are left alone |
| CollapseStrings.CollapseIdempotent | cmake/cpplint.py:1690-1732 | collapsing again changes nothing, for every line |
| CollapseStrings.EndsInNumberIff | cmake/cpplint.py:1718 | the expression matches exactly a text that ends, behind a word boundary, in the beginning of a number and hexadecimal digits |
| CollapseStrings.CollapseShrinksLayout | cmake/cpplint.py:1669-1678 | of a line laid out as code, literals, numbers whose further characters may have separators, and possibly an unmatched quote, the loop empties the literals, keeps the characters without the separators, and keeps the rest |
| CollapseStrings.LayoutOf | cmake/cpplint.py:1687-1730 | every line has such a layout |
| MultiLineComments.FindNextMultiLineCommentStart | cmake/cpplint.py:1580-1588 | the first line from a given one that begins a comment it does not end, or the number of lines |
| MultiLineComments.StartsIff | cmake/cpplint.py:1583-1585 | which lines begin a comment they do not end: blanks, slash and star, and no star and slash behind |
| MultiLineComments.EndsIff | cmake/cpplint.py:1594 | which lines end one: star and slash, then blanks |
| MultiLineComments.FindNextMultiLineCommentEnd | cmake/cpplint.py:1591-1597 | the first line from a given one that ends a comment, or the number of lines |
| MultiLineComments.RemoveMultiLineCommentsFromRange | cmake/cpplint.py:1600-1605 | overwrites exactly the lines of the range |
| MultiLineComments.RemoveMultiLineComments | cmake/cpplint.py:1608-1621 | in place, the lines become what a line automaton prescribes; an error is reported exactly if a comment is left open, with the number of the line that begins it |
| MultiLineComments.BlankedExactlyTerminatedRanges | cmake/cpplint.py:1608-1621 | a line is blanked if and only if it lies in a comment range that is terminated |
| MultiLineComments.BlankedMark | cmake/cpplint.py:1602-1605 | a blanked line begins no comment |
| MultiLineComments.OnlyUnterminatedLeft | cmake/cpplint.py:1615-1619 | afterwards only lines of an unterminated comment are inside a comment |
| MultiLineComments.BlankedIdempotent | cmake/cpplint.py:1608-1621 | blanking again changes no line |
| MultiLineComments.SameReport | cmake/cpplint.py:1615-1619 | and reports the same error, or none again |
| IncludeOrder.IncludeState.constructor | cmake/cpplint.py:858-862 | one empty list of headers, and as after a reset |
| IncludeOrder.IncludeState.ResetSection | cmake/cpplint.py:884-903 | back to the initial section, no last header; a conditional opens a new list of headers, an alternative branch starts its list over, all other lists stay |
| IncludeOrder.IncludeState.CheckNextIncludeOrder | cmake/cpplint.py:941-992 | next section, message text and last header in every case; a message leaves the section as it is |
| IncludeOrder.IncludeState.CheckRun | cmake/cpplint.py:941-992 | the calls for one run of headers give no message if and only if the run is orderly |
| IncludeOrder.GreedyIsLeast | cmake/cpplint.py:964-989 | the machine is never ahead of any nondecreasing labelling of the headers by sections, and does not complain if there is one |
| IncludeOrder.GreedyLabels | cmake/cpplint.py:964-989 | without complaints its own sections give such a labelling |
| IncludeOrder.GreedyIsComplete | cmake/cpplint.py:836-838 | no message if and only if some nondecreasing labelling exists |
| IncludeOrder.OrderlyIffNoneTooLate | cmake/cpplint.py:964-989 | without sections: no message if and only if no system header follows another kind of header or one of the file's own that itself follows another, and no C system header follows a C++ one |
| IncludeOrder.Messages | cmake/cpplint.py:842-856 | the names in the only three messages there are |
| IncludeOrder.FirstMessage | cmake/cpplint.py:942-953 | the first message comes with the first header that no labelling can accommodate |
| Controller.ActiveStepsSpaced | hostcontrold/src/logic/server_controller.cpp:42-47 | active steps are at least an interval apart, whatever the clock does |
| Controller.SentTimesSpaced | hostcontrold/src/logic/server_controller.cpp:41-100 | commands are at least an interval apart; no step sends two |
| Controller.RateBound | hostcontrold/src/logic/server_controller.cpp:41-100 | in any window of length w at most w / interval + 1 commands are sent |
| Controller.WantedRemembered | hostcontrold/src/logic/server_controller.cpp:54-71 | a step that saw `force_on` or an active client is never forgotten for an earlier one |
| Controller.Hysteresis | hostcontrold/src/logic/server_controller.cpp:41-79 | a shutdown not asked for by `force_off` comes at least the timeout after every earlier active step that saw `force_on` or an active client, and so after every earlier wake-up |
| Controller.ActiveIffDue | hostcontrold/src/logic/server_controller.cpp:42-47 | a step is active exactly if all earlier active steps, or else the time recorded before the run, are at least the interval ago |
| Controller.RunningIffUp | hostcontrold/src/logic/server_controller.cpp:102-117 | the server counts as running exactly if the last conclusive ping so far found it active, or there was none and it did so before |
| Controller.TimeoutIffIdle | hostcontrold/src/logic/server_controller.cpp:75 | the timeout test holds exactly if every earlier active step that saw `force_on` or an active client, or else the time recorded before the run, is at least the timeout ago |
| Controller.CommandCause | hostcontrold/src/logic/server_controller.cpp:41-100 | in terms of the run so far, the force files and the clients' answers: exactly when a step sends a wake-up and exactly when it sends a shutdown; `force_on` goes before `force_off` |
| Controller.BoundedResponse | hostcontrold/src/logic/server_controller.cpp:41-79 | after an active step of a run that saw `force_on` or an active client: if no later active step sees anything ask for the server, all find it running, and calls come at most d apart, the next command is a shutdown, at or after the timeout and less than interval + d later |
| Controller.BoundedResponseFromState | hostcontrold/src/logic/server_controller.cpp:37-79 | the same from any state whose last active step is not later than its last activity, such as the initial one, from where the timeout counts |
| Controller.RunningIsLastAnswer | hostcontrold/src/logic/server_controller.cpp:102-117 | the recorded state is the last conclusive answer to a ping of the server |
| ServerControllers.ControlDir | hostcontrold/src/config/server_machine_config.cpp:20 | every stored directory ends in a slash |
| ServerControllers.PathsDistinct | hostcontrold/src/config/server_machine_config.cpp:20 | directory and file name can be read off a path, so different directories or names never collide |
| ServerControllers.AllPathsDistinct | hostcontrold/src/logic/server_controller.cpp:3-6 | status files and force files of all directories are different files |
| ServerControllers.StatusNames | hostcontrold/src/logic/server_controller.cpp:3-4 | `on` and `off` in the directory stand for running and not running |
| ServerControllers.ServerController.constructor | hostcontrold/src/logic/server_controller.cpp:8-39 | the directory has been created, exactly the `off` file exists in it, the server counts as off, and the timeout counts from now |
| ServerControllers.ServerController.CheckAndSignalServerState | hostcontrold/src/logic/server_controller.cpp:143-165 | nothing is written unless the state changes; then the status files show the new state, at least one of them exists after each file operation, and no other file changes |
| ServerControllers.ServerController.PingServer | hostcontrold/src/logic/server_controller.cpp:102-117 | a failed ping changes nothing, any other sets state and status files |
| ServerControllers.ServerController.StartServerIfNotRunning | hostcontrold/src/logic/server_controller.cpp:81-93 | a wake-up for the configured address is sent exactly if the server is not running |
| ServerControllers.ServerController.ShutdownServerIfRunning | hostcontrold/src/logic/server_controller.cpp:95-100 | a shutdown for the configured address and user is sent exactly if the server is running |
| ServerControllers.ServerController.CheckClients | hostcontrold/src/logic/server_controller.cpp:119-141 | true exactly if some client answers and the stop flag has not been seen before any client up to that one |
| ServerControllers.ServerController.DoWork | hostcontrold/src/logic/server_controller.cpp:41-79 | one step refines one step of the state machine: fields, commands with their time, status files, and the files at every moment in between |
| ServerControllers.OtherStatusKept | hostcontrold/src/logic/server_controller.cpp:143-165 | one controller's file operations leave the status of another directory as it is |
| ServerControllers.SignalReflects | hostcontrold/src/logic/server_controller.cpp:143-165 | with any sharing of directories, every directory goes on showing the state of one of those who use it; where a step changes the state, it shows the new one |
| ServerControllers.ShownIffAgreed | hostcontrold/src/logic/server_controller.cpp:143-165 | a directory shows the right status for all who use it exactly if they are in the same state; a directory of one's own always does |
| ServerControllers.SharedDirectoryFails | hostcontrold/src/main.cpp:90-106 | for any two controllers configured with one directory, a run of the daemon from its start after which they disagree, so that the status is wrong for one |
| ServerControllers.AlwaysAgreedIffOwn | hostcontrold/src/main.cpp:90-106 | those who use a directory agree after every run of the daemon if and only if it is configured once |
| ServerControllers.StatusAfterPasses | hostcontrold/src/main.cpp:90-106 | the files show the right status for all who use a directory exactly if they agree by the configuration and the world |
| ServerControllers.Turn | hostcontrold/src/main.cpp:100-101 | users act, one controller works: it alone changes, and every directory shows a status at every moment |
| ServerControllers.Pass | hostcontrold/src/main.cpp:100-103 | in one pass of the loop every controller makes one step, as if alone |
| ServerControllers.CreateControllers | hostcontrold/src/main.cpp:90-94 | for any configuration, also one that names a directory twice, all controllers are in their initial state on one file system that shows it |
| ServerControllers.MainLoop | hostcontrold/src/main.cpp:97-106 | over any number of passes every controller makes the run of states and commands it would make alone, whether or not directories are shared; every directory shows some status at every moment, and the right one exactly if those who use it agree |
| ServerControllers.RunDaemon | hostcontrold/src/main.cpp:84-106 | from the start: every controller goes through the run of its answers from the initial state and its log keeps to the rate; from the moment all are created every directory shows some status; it is right for all who use it exactly if they agree, and always if it is configured once |
| ServerControllers.RanWithinRate | hostcontrold/src/logic/server_controller.cpp:41-100 | the rate bound holds for the log of a controller object after any run |
| ServerControllers.RanResponds | hostcontrold/src/logic/server_controller.cpp:37-79 | the log of a controller object that was created with its server running and unwanted begins with a shutdown in due time |
| Benchpress.EstimateBounds | libs/json/benchmarks/thirdparty/benchpress/benchpress.hpp:263-300 | dividing the duration by the time per operation gives at least the last number of iterations and less than twice as many; a duration too short for that gives the limit |
| Benchpress.Context.RunN | libs/json/benchmarks/thirdparty/benchpress/benchpress.hpp:270-276 | records number of iterations and measured duration |
| Benchpress.Context.NextIterations | libs/json/benchmarks/thirdparty/benchpress/benchpress.hpp:295-302 | the number of iterations for the next round |
| Benchpress.Context.Run | libs/json/benchmarks/thirdparty/benchpress/benchpress.hpp:291-306 | whatever the runs take, the loop ends after at most 26 further rounds, with at most 2 * 10^9 iterations, and only when its condition fails |
| Benchpress.RoundDown10 | libs/json/benchmarks/thirdparty/benchpress/benchpress.hpp:309-321 | the two loops compute the power of ten of the specification |
| Benchpress.RoundDownIsPower | libs/json/benchmarks/thirdparty/benchpress/benchpress.hpp:309-321 | it is a power of ten with power <= n < 11 * power |
| Benchpress.RoundDownIs | libs/json/benchmarks/thirdparty/benchpress/benchpress.hpp:309-321 | it is the least such power |
| Benchpress.RoundUpTo | libs/json/benchmarks/thirdparty/benchpress/benchpress.hpp:323-333 | the branches compute the rounded number of the specification |
| Benchpress.RoundUpBounds | libs/json/benchmarks/thirdparty/benchpress/benchpress.hpp:323-333 | 10 n < 11 r and 2 r <= 5 n for the result r |
| Benchpress.RoundUpFallsShort | libs/json/benchmarks/thirdparty/benchpress/benchpress.hpp:323-333 | it rounds down if and only if 10^(k+1) < n < 11 * 10^k for some k; the least case is 101 |
| Benchpress.RoundUpIsNext | libs/json/benchmarks/thirdparty/benchpress/benchpress.hpp:323-333 | the result is the next of the numbers 1, 2, 5, 10, ..., except that from ten times the base on it is that |
| Benchpress.WantedBounds | libs/json/benchmarks/thirdparty/benchpress/benchpress.hpp:296-301 | before rounding, the number grows by half or by one, and no intermediate value exceeds 1.5 * 10^9 |
| Benchpress.WantedIs | libs/json/benchmarks/thirdparty/benchpress/benchpress.hpp:296-301 | the value before rounding, by the inequalities of the two quotients, the growth by half and the cap at a hundredfold |
| Benchpress.PowerOfTenFitsInt | libs/json/benchmarks/thirdparty/benchpress/benchpress.hpp:316-320 | the power of ten held in an `int` is at most 10^9 |
| Benchpress.Progress | libs/json/benchmarks/thirdparty/benchpress/benchpress.hpp:294-303 | from 1, 2 or 5 times a power of ten, every round leads to a later number of this kind, although rounding up may round down |
| Benchpress.RoundsBounded | libs/json/benchmarks/thirdparty/benchpress/benchpress.hpp:291-306 | for all measured durations at most 26 rounds follow the first |
| Benchpress.TwentySixRoundsHappen | libs/json/benchmarks/thirdparty/benchpress/benchpress.hpp:291-306 | the bound is exact: one nanosecond per iteration and more than a second to fill takes 26 rounds |
| ArgvParser.Options.CheckedParseArg | libs/json/benchmarks/thirdparty/cxxopts/cxxopts.hpp:957-990 | value from the next argument, empty value, or failure; `current` moves exactly if the next argument is used |
| ArgvParser.Options.ConsumePositional | libs/json/benchmarks/thirdparty/cxxopts/cxxopts.hpp:992-1017 | consumes the argument exactly if a positional option is set |
| ArgvParser.Options.ParseShort | libs/json/benchmarks/thirdparty/cxxopts/cxxopts.hpp:1058-1094 | a group of short flags, up to its first failure |
| ArgvParser.Options.ParseLong | libs/json/benchmarks/thirdparty/cxxopts/cxxopts.hpp:1098-1134 | a long flag with or without a value of its own |
| ArgvParser.Options.ParseArgument | libs/json/benchmarks/thirdparty/cxxopts/cxxopts.hpp:1034-1137 | one turn of the loop, before the argument is kept |
| ArgvParser.Options.Parse | libs/json/benchmarks/thirdparty/cxxopts/cxxopts.hpp:1025-1153 | in place, the kept arguments stand in order behind the program name, everything behind them is as it was, `argc` is their number plus one; after a failure `argc` is unchanged; the options parsed are those of the walk over the original arguments, and `current` never passes `argc` |
| ArgvParser.TookNextIffTakesValue | libs/json/benchmarks/thirdparty/cxxopts/cxxopts.hpp:957-990 | an argument takes the next one exactly if its last option needs a value and the next one exists and is not refused as a flag |
| ArgvParser.ArgumentExplained | libs/json/benchmarks/thirdparty/cxxopts/cxxopts.hpp:957-1137 | what one argument leads to: its options are set in order to their own value, the next argument or nothing, up to the first one with a fault, which is the failure |
| ArgvParser.FaultlessIff | libs/json/benchmarks/thirdparty/cxxopts/cxxopts.hpp:957-1137 | an option has at most one fault, and none exactly if it exists, is given no value it does not take and one it insists on, and its text is accepted |
| ArgvParser.WalkIsFilter | libs/json/benchmarks/thirdparty/cxxopts/cxxopts.hpp:1025-1153 | when parsing succeeds every argument is a flag, a flag's value, a consumed positional or kept; the kept ones are the result in order; the options set, with their texts, are those the other arguments name |
| ArgvParser.WalkExplained | libs/json/benchmarks/thirdparty/cxxopts/cxxopts.hpp:1025-1153 | success or not: the roles, the kept arguments, the options set and the cause of the failure, argument by argument |
| ArgvParser.SucceedsIffSound | libs/json/benchmarks/thirdparty/cxxopts/cxxopts.hpp:1025-1153 | parsing succeeds if and only if no option of any argument has a fault |
| ArgvParser.RolesUnique | libs/json/benchmarks/thirdparty/cxxopts/cxxopts.hpp:1025-1153 | the classification is determined by the arguments |
| WordWrap.FormatDescription | libs/json/benchmarks/thirdparty/cxxopts/cxxopts.hpp:850-911 | appends the default, then wraps: a result exactly under the condition on the description, with its text kept; without line breaks in the description, lines that keep to the width exactly under the second condition |
| WordWrap.FormatsOnce | libs/json/benchmarks/thirdparty/cxxopts/cxxopts.hpp:865-910 | the breaks described by the specification determine the result |
| WordWrap.BreakLine | libs/json/benchmarks/thirdparty/cxxopts/cxxopts.hpp:882-896 | one break: the row appended and the new positions of the two iterators, or an inverted range |
| WordWrap.Wrap | libs/json/benchmarks/thirdparty/cxxopts/cxxopts.hpp:865-910 | the loop with its two iterators follows these breaks; None stands for a range whose end lies before its beginning |
| WordWrap.WrapsIffWellWrapped | libs/json/benchmarks/thirdparty/cxxopts/cxxopts.hpp:880-896 | all ranges are well formed if and only if no complete block of width + 2 characters is without a space when the last break was at a space; blocks and breaks at spaces are told from the description alone |
| WordWrap.ShortRunsWrap | libs/json/benchmarks/thirdparty/cxxopts/cxxopts.hpp:880-896 | this holds if no run without spaces is longer than width + 1 |
| WordWrap.LongRunInverts | libs/json/benchmarks/thirdparty/cxxopts/cxxopts.hpp:890-896 | for width 1 and a run of four characters the result is an inverted range |
| WordWrap.WrapKeepsInk | libs/json/benchmarks/thirdparty/cxxopts/cxxopts.hpp:850-911 | apart from spaces and line breaks, the output is the description with its default |
| WordWrap.OutputLines | libs/json/benchmarks/thirdparty/cxxopts/cxxopts.hpp:884-908 | split at its line breaks, the output is the first row and, behind exactly `start` spaces each, the other rows, the last one included |
| WordWrap.RowsAreDescription | libs/json/benchmarks/thirdparty/cxxopts/cxxopts.hpp:884-908 | the rows put together, with a space where a break has dropped one, are the description |
| WordWrap.RowsFitExactly | libs/json/benchmarks/thirdparty/cxxopts/cxxopts.hpp:880-908 | no range is inverted and no row, the last one included, is longer than the width, if and only if the last space of every complete block of width + 2 characters ends a row of 1 to width characters and the rest fits |
| WordWrap.RowLength | libs/json/benchmarks/thirdparty/cxxopts/cxxopts.hpp:880-908 | all rows, the last one included, have at most 2 * width + 2 characters |
| WordWrap.LinesFitExactly | libs/json/benchmarks/thirdparty/cxxopts/cxxopts.hpp:880-908 | the same for the lines of the output behind their indentation |
| WordWrap.LineLength | libs/json/benchmarks/thirdparty/cxxopts/cxxopts.hpp:880-908 | no line of the output has more than 2 * width + 2 characters behind its indentation |
| WordWrap.LongestRow | libs/json/benchmarks/thirdparty/cxxopts/cxxopts.hpp:880-908 | for every width, a description whose format has a row of that length |
| WordWrap.LongestLine | libs/json/benchmarks/thirdparty/cxxopts/cxxopts.hpp:880-908 | for every width, a description whose output has a line of that length |
| WakeOnLan.ConvertMacStringToBinary | hostcontrold/src/network/wake_on_lan.cpp:98-151 | the bytes written, the untouched rest of the buffer and the verdict are those of the parser function; at most six bytes are written |
| WakeOnLan.SpelledIsParsed | hostcontrold/src/network/wake_on_lan.cpp:105-150 | whatever spells six bytes, or fewer up to the end, is accepted as these bytes, and the cursor ends behind them |
| WakeOnLan.ParsedIsSpelled | hostcontrold/src/network/wake_on_lan.cpp:105-150 | only such strings are accepted, and the cursor never passes the terminator |
| WakeOnLan.EmptyAddressAccepted | hostcontrold/src/network/wake_on_lan.cpp:105 | the empty string is accepted, with no byte |
| WakeOnLan.SixBytesIffSpelled | hostcontrold/src/network/wake_on_lan.cpp:98-151 | accepted with six bytes if and only if the string begins with six groups that spell bytes |
| WakeOnLan.PrintParse | hostcontrold/src/network/wake_on_lan.cpp:98-151 | six bytes, each printed with two digits of any case with or without a colon, or with one digit before a colon or at the end, are parsed back |
| WakeOnLan.BuildPacket | hostcontrold/src/network/wake_on_lan.cpp:79-85 | six bytes 0xff, then byte 6 + k is byte k mod 6 of the address for all k < 96; the pointer ends at 102 |
| WakeOnLan.PacketDetermined | hostcontrold/src/network/wake_on_lan.cpp:50-88 | the packet is determined by an accepted address if and only if that spells six bytes |
| WakeOnLan.SendWol | hostcontrold/src/network/wake_on_lan.cpp:46-96 | a packet is handed to the network exactly if the address parses and the socket could be set up; it is a magic packet for the parsed bytes; true exactly if it could be sent |

## Left out

Of the style checker:

- The character classes of the regular expressions (`\s`, `\w`, `\b`) are modelled on ASCII; lines hold no line breaks.
- The theorems in both directions are for `(`, `[` and `{`. From `<` and `>` the matchers are proved to find the partners of well-formed texts and to stop where the source says; elsewhere they follow heuristics that no grammar describes, and are only proved to compute their scanner functions.
- TextInside.GetTextInside: where the start pattern, a regular expression of the caller's, first matches is a parameter.
- CollapseStrings.CollapseQuotes: covers the loop. The early return for `#include` lines, the removal of escaped characters before it and `CleanseComments` behind it are single regular expressions.
- Preprocessor.NestingState.Update: everything that `Update` does after the directives is one arbitrary function of the nesting stack per line; class, namespace and assembler detection are not modelled.
- The search for duplicate headers in the lists of `_IncludeState`, and alphabetical order.
- Raw strings, file information, configuration files and the checks that are one regular expression and a message.

Of the daemon:

- File operations succeed, as the controller assumes; log output and the result of a wake-up, which is only logged, are not modelled.
- Time is an unbounded integer. Pings, ssh and sockets are answers of the environment or entries of a log.
- ServerControllers.MainLoop: users never touch the status files; the exit on a signal and the pause between passes are left out.
- Different strings are different directories, although a file system may give one directory several names.
- WakeOnLan.SendWol: whether the three socket calls succeed is given; with fewer than six bytes parsed the rest of the address is unspecified.
- Reading the JSON configuration is field copies through a library.

Of the libraries:

- Benchpress.Context.Run: durations are arbitrary nonnegative numbers; timers, threads, byte counts and printing are left out.
- ArgvParser.Options.Parse: what the expression for options makes of an argument, and which texts an option's value accepts, are parameters; default values after the loop are left out; arguments are values, not pointers to characters.
- WordWrap.FormatDescription: characters are not grouped into Unicode strings, and an inverted range, undefined behaviour in C++, ends the model with None.
- The help text's grouping and its columns.

Some methods have no function of their own in the source: CollapseRound, NextIterations, ParseShort, ParseLong,
ParseArgument, WalkArgument, StepBack, BreakLine, Wrap, Turn and Pass are parts of longer functions, UpdateAll, CheckRun and
MainLoop stand for the calls in a row that the program makes; CreateControllers and RunDaemon are parts of `main`.
