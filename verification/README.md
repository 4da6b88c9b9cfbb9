# Verified model of `addkernels`

`addkernels` is the build tool of the Radeon Performance Primitives repository that turns kernel sources into C
byte arrays. It has two halves, and this project models both with their mutable state and proves what they compute.

* **The include inliner** (`IncludeInliner.dfy`) reads a file line by line, replaces every active include directive by
  the expanded file it names, understands a marker that makes the next include optional, stops at a depth limit, and
  on any error throws an exception carrying a trace of its include stack. Exceptions do not unwind the depth counter
  or the stack; the model keeps that.
* **The hex printer and the driver** (`Bin2Hex.dfy`, `AddKernels.dfy`) read a source in blocks, print it in lines of
  hex bytes on a stream whose base and fill persist between calls, and run over a list of files with an optional guard.

## How it is built

| file | contents |
|---|---|
| `Bytes.dfy`, `Numbers.dfy`, `Streams.dfy` | byte strings, integer formatting, the `istream`/`ostream` state that matters |
| `Directives.dfy` | what one line means, and the directive grammar stated without searching |
| `SourceFileDesc.dfy` | the linked include stack, the printed trace and its reader |
| `Expansion.dfy`, `Emission.dfy` | the reference semantics: lines contributed and ending; the separator rule |
| `Exceptions.dfy` | what an exception must tell, without running anything |
| `IncludeInliner.dfy` | the stateful inliner, proved equal to the reference on every file system |
| `ExpansionLaws.dfy`, `Reachability.dfy`, `Cycles.dfy`, `ReadingOrder.dfy`, `Traces.dfy`, `FirstFaults.dfy`, `Markers.dfy`, `Replacement.dfy`, `Fixpoints.dfy`, `Reuse.dfy` | theorems about the reference, hence about the inliner |
| `HexText.dfy`, `Bin2Hex.dfy` | printed text and its layout, the printer |
| `CReader.dfy`, `CText.dfy` | a reader of C text that shares nothing with the printer, and what it finds |
| `AddKernels.dfy` | the driver |
| `Sources.dfy`, `Pipeline.dfy` | what a source stands for, by its extension, and the end-to-end theorems |

`ProcessCore` and `Bin2Hex` are each divided into one method per loop or branch, with the same order of tests and
effects as the original function. A thrown C++ exception is the `Thrown` result of the method.

The file system is an arbitrary total function from `root + "/" + path` to nothing, something that does not open, or a
finite byte string. Every theorem about the inliner is for all such functions, cyclic ones included.

The reference semantics follows the same line-by-line reading as the code, so it is pinned down a second time by
statements that do not mention it: a run ends normally exactly when everything reachable in the include graph is
well-formed and close enough (`ExpandsIff`), and what it then writes is the list of reachable plain lines in reading
order, and no other list (`EmitsReadingOrder`); otherwise it stops at the first line at fault in reading order, with the
plain lines before it written and the stack that leads to it (`FailsAtFirstFault`). What an exception says about its own
run is true (`ExceptionsAreHonest`); if there was room for its root, its whole trace is true exactly when the run began
on an empty stack (`WholeStackTruthfulIff`).

The generated C text is judged by a reader of its own (`CReader.dfy`) that knows no block or line size and has words,
digits and radixes of its own. It takes the three lines of a guard and definitions, and only names that a C program may
declare or define, each for one thing. Letter case is defined by the alphabet, blanks by a list, and what a source stands
for (`StandsFor`, `FailsWith`) without the methods that compute it.

Where the code does not do what one might expect, the exact condition is proved, and a failing input is given:

| expectation | exact condition | failing input |
|---|---|---|
| a trace is a path of the include graph | `WholeStackTruthfulIff` | `ReuseTellsAFalseTrace` |
| a directive alone on its line is refused | `BareDirective` | `BareDirectiveIncludes` |
| text without directives passes unchanged | `FixpointIff`, `HipSourceIff` | `NewlineIsLost`, `HipSourceLosesNewline` |
| the block size does not show in the output | `BlockedIsSinglePassIff` | `BlockedDiffers` |
| an overflow of the stack means a cycle | `OverflowIff`, `OverflowMeansCycle` | `OverflowWithoutCycle` |
| includes are looked for beside the source | `BesideIff` | `BareSourceLooksAtRoot` |
| a definition reads back as its array | `NamedIff` | `HiddenSourceIsNotNameable` |
| a generated file reads back as its sources | `GeneratedRoundTrip` | `TwinSourcesClash` |
| a path is split into its parts | `SplitPathIff` | `DottedDirectoryThrows` |
| a directive can be replaced by hand | `InlineByHand` | `InlineByHandFails` |
| an inliner can be used again after an error | `ReuseAfterFailure` | `ReuseRunsOutOfRoom` |

## Model

| member | source | states |
|---|---|---|
| Inliner.IncludeInliner.ProcessCore | addkernels/include_inliner.cpp:88-194 | for every file system in which whatever opens can be read to its end, every text and every starting state: it throws if and only if there is no room for the root or some reachable line is at fault; the exception has the fault of the first such line, file name included, and a trace that leads to it and reads back as the path to it unless a path has a newline; what is appended and the stack and depth left behind are those of the reference expansion; a normal return restores stack and depth and has read to the end, a throw leaves them at the failing file; it always terminates |
| Inliner.IncludeInliner.ProcessLines | addkernels/include_inliner.cpp:103-189 | the loop consumes all lines, numbers them from 1 and carries the marker flag from each line to the next only |
| Inliner.IncludeInliner.ProcessLine | addkernels/include_inliner.cpp:108-188 | one line does what its classification demands, under a marker or not, and sets the flag only for a marker |
| Inliner.IncludeInliner.ProcessDirective | addkernels/include_inliner.cpp:127-178 | an active directive is refused, forgiven, reported or expanded as its path resolves; everything else is untouched |
| Inliner.IncludeInliner.Process | addkernels/include_inliner.cpp:77-86 | the public entry: a root file included at line 0, with the same promise about text, state and exception |
| Exceptions.AnswerAboveIs | addkernels/include_inliner.cpp:97-178 | with room for the root, the status described that way is the only one: no other fault, line or stack fits |
| Inliner.IncludeInliner.constructor | addkernels/include_inliner.hpp:117-130 | limit 256, depth 0, empty stack |
| Inliner.IncludeInliner.GetIncludeStackTrace | addkernels/include_inliner.cpp:196-213 | walking the linked stack prints the trace of all its frames; the empty stack prints nothing |
| SourceFiles.TraceRoundTrip | addkernels/include_inliner.cpp:196-213 | one line per frame, innermost first; read back by position and last colon it gives every path and line, whatever colons or "from" they contain, if and only if no path has a newline |
| SourceFiles.PlaceAt | addkernels/include_inliner.cpp:203-210 | the file on top stands at the line given, every other one at the line from which it includes the file above it |
| Directives.TargetIff | addkernels/include_inliner.cpp:129-153 | the searches find a path exactly when the text is a quoted path, or an allowed angle path with no double quote anywhere |
| Directives.DirectiveLine | addkernels/include_inliner.cpp:108-153 | for any leading blanks and any case of its letters: the line includes a path if and only if the text behind the blank names it, and is malformed if and only if that text names none |
| Directives.OtherLine | addkernels/include_inliner.cpp:114-127 | a line is a marker if and only if its first word is the marker in any letter case, whatever the flags; it is copied if and only if it is neither that nor, with recursion on, the directive in any letter case; a directive that itself has a capital is never active; blank lines are copied |
| Directives.LineShape | addkernels/include_inliner.cpp:108-113 | every line is blank, or one word between blanks and what a blank begins, so the lines of the two rows above are all there are |
| Bytes.LowerIff | addkernels/include_inliner.cpp:114 | lowering a word gives exactly the text without capitals that differs from it only in the case of letters |
| Directives.BareDirective | addkernels/include_inliner.cpp:129-150 | a directive with nothing behind it includes what the whole line names, because the position is then -1 and the search starts over; it is refused if and only if the directive itself names nothing |
| Directives.BareDirectiveIncludes | addkernels/include_inliner.cpp:129-153 | a concrete directive that, alone on its line, includes a file |
| Emission.EmitAllAppend | addkernels/include_inliner.cpp:184-187 | emitting two runs of lines in turn is emitting their concatenation |
| Emission.EmitAllIsJoin | addkernels/include_inliner.cpp:184-187 | the separator rule in closed form: a join by newlines without the empty lines that come before any output |
| Emission.EmitAllFrame | addkernels/include_inliner.cpp:184-187 | earlier output stays as a prefix, and what is added depends on it only through whether it was empty |
| Emission.EmitSplit | addkernels/include_inliner.cpp:106-113 | splitting a text by `getline` and emitting its lines gives the text less its leading newlines |
| ExpansionLaws.ExpandAppend | addkernels/include_inliner.cpp:106-189 | two runs of lines expand one after the other, the marker flag being all that passes between them |
| ExpansionLaws.FileShift | addkernels/include_inliner.cpp:170-177 | what a file expands to and how it fails do not depend on where it was included from |
| ExpansionLaws.LimitStability | addkernels/include_inliner.cpp:97-101 | a run that does not overflow, successful or not, is identical under every larger limit |
| Reachability.ExpandsIff | addkernels/include_inliner.cpp:97-104 | a run ends normally if and only if every reachable file is well-formed and every chain of includes is shorter than the limit |
| Reachability.ExpandedIsAcyclic | addkernels/include_inliner.cpp:164-177 | after a normal end no chain of includes that was followed visits a file twice, root included |
| Reachability.NoLimitForCycles | addkernels/include_inliner.hpp:117 | a file that reaches itself expands under no limit |
| Reachability.OverflowIff | addkernels/include_inliner.cpp:97-98 | over well-formed files the overflow exception is thrown if and only if some chain of includes is too long |
| Reachability.CycleIsReported | addkernels/include_inliner.hpp:51-54 | a reachable cycle never ends normally, and over well-formed files it is reported as a stack overflow |
| Cycles.OverflowMeansCycle | addkernels/include_inliner.cpp:97-98 | when the limit is at least the number of files that can be reached, an overflow means that one of them reaches itself; over well-formed files it overflows if and only if one does |
| Cycles.OverflowWithoutCycle | addkernels/include_inliner.hpp:51-54 | a concrete file that includes an empty one overflows a limit of one, without any cycle |
| ReadingOrder.EmitsReadingOrder | addkernels/include_inliner.cpp:106-189 | the emitted lines are the plain lines reachable through includes, each once per way to reach it, in reading order; no other list fits |
| Traces.ExceptionsAreHonest | addkernels/include_inliner.cpp:101-177 | whatever stack a run begins on: every frame it pushed is included by the frame below at the recorded line, down to its root; the blamed line has the named fault; an overflow happens only with exactly the limit on the stack |
| Traces.WholeStackTruthfulIff | addkernels/include_inliner.cpp:101-102 | if there was room for the root, the whole stack of an exception is a path of the include graph from the root if and only if the run began on an empty stack; if there was none, if and only if the stack it began on already was such a path |
| Traces.PrintedTraceIsTrue | addkernels/include_inliner.cpp:196-213 | the printed trace of an exception, read back, is the stack it was thrown on, if and only if neither the root's name (if there was room for the root) nor a path left by an earlier failure has a newline |
| FirstFaults.FailsAtFirstFault | addkernels/include_inliner.cpp:97-177 | without room for its root a run overflows at once, on the stack it began on; with room it throws if and only if some reachable line is at fault, and is then what the first such line in reading order makes it: that line's exception, the stack with the includes that lead to it, and exactly the plain lines before it; nothing else fits |
| FirstFaults.OverflowIsFirstFault | addkernels/include_inliner.cpp:97-98 | over any files the overflow exception is thrown if and only if there is no room for the root or the first line at fault is an include for which there is no room |
| Traces.ReuseAfterFailure | addkernels/include_inliner.cpp:97-104 | frames left by an exception reduce the limit of the next run by their number; after an overflow every run overflows at once |
| Reuse.ReuseRunsOutOfRoom | addkernels/include_inliner.cpp:97-104 | with a limit of one file, an inliner that has failed once overflows on an empty file that a fresh one expands |
| Reuse.ReuseTellsAFalseTrace | addkernels/include_inliner.cpp:196-213 | two concrete files given to one inliner: the second trace names an inclusion from line 0 that never happened |
| Markers.MarkerMasksNothing | addkernels/include_inliner.cpp:116-178 | a marker before an unmarked directive changes only line numbers unless the target is missing: it masks no other fault |
| Markers.MarkerForgivesMissing | addkernels/include_inliner.cpp:157-163 | when the target is missing the marker turns exactly that exception into nothing |
| Markers.LastMarkerIsForgotten | addkernels/include_inliner.cpp:104-125 | a marker on the last line has no effect and does not reach the including file |
| Markers.InlineByHand | addkernels/include_inliner.cpp:119-178 | in a run that does not overflow, failing or not, replacing a directive by the lines of its file preserves the text and the fault if the run does not come past it, or no marker at that file's end comes to stand before a line it has an effect on (a plain line, a marker, a missing include); for a run that ends normally, only then |
| Markers.InlineByHandFails | addkernels/include_inliner.cpp:119-182 | a concrete file, only a marker, whose lines in place of the directive make the run fail |
| Replacement.ReplaceInFile | addkernels/include_inliner.cpp:154-177 | if the text of one file is exchanged for one that expands alike, under however many spellings of its path, every run over every root, that file itself included, stays the same but for line numbers |
| Replacement.MarkerMasksNothingAnywhere | addkernels/include_inliner.cpp:116-178 | a marker put before a directive of any file whose target is not missing changes no run over any root but for line numbers, under whatever paths that file is reached |
| Replacement.MarkerForgivesMissingAnywhere | addkernels/include_inliner.cpp:157-163 | a marked include of any file whose target is missing counts for nothing in any run over any root, under whatever paths that file is reached |
| Replacement.LastMarkerIsForgottenAnywhere | addkernels/include_inliner.cpp:104-125 | a marker on the last line of any file counts for nothing in any run over any root, under whatever paths that file is reached |
| Fixpoints.PassThrough | addkernels/include_inliner.cpp:179-188 | text without markers and active directives comes out less its leading newlines |
| Fixpoints.Idempotence | addkernels/include_inliner.cpp:106-189 | running the inliner on its own successful output, with any file system, root and positive limit, changes nothing |
| Fixpoints.FixpointIff | addkernels/include_inliner.cpp:106-189 | a text is reproduced if and only if it has no marker, no active directive and no leading newline |
| Fixpoints.NewlineIsLost | addkernels/include_inliner.cpp:184-187 | a file that is one newline comes out empty |
| HexPrinter.Bin2Hex | addkernels/addkernels.cpp:35-87 | from any base and fill, exactly the definition of the variable for all source bytes is appended |
| HexPrinter.PrintBlocks | addkernels/addkernels.cpp:57-78 | the block loop, including the short last block found through a negative `tellg`, prints all blocks once and terminates |
| HexPrinter.PrintBlock | addkernels/addkernels.cpp:63-75 | one block is printed in lines of its own |
| HexPrinter.PrintBytes | addkernels/addkernels.cpp:70-71 | each byte of a line is `0x`, exactly two hex digits and a comma |
| HexPrinter.PrintHeader | addkernels/addkernels.cpp:47-52 | the size is printed in decimal whatever base the stream had |
| HexText.LayoutHolds | addkernels/addkernels.cpp:57-78 | every byte is printed once and in order for all sizes; every line holds from 1 to min(line size, buffer size) bytes |
| HexText.LayoutCount | addkernels/addkernels.cpp:57-78 | the number of lines: number of full blocks times ceil(buffer size / line size), plus ceil(remainder / line size) |
| HexText.DefinitionLines | addkernels/addkernels.cpp:47-86 | a definition, split into lines, is the size, the array, one line of hex bytes for each line laid out by the buffer and line sizes, and the end |
| HexText.BlockedIsSinglePassIff | addkernels/addkernels.cpp:57-78 | the block-wise text equals that of one unbounded block if and only if one block holds all data or the line size divides the buffer size |
| HexText.BlockedDiffers | addkernels/addkernels.cpp:57-78 | two bytes in blocks of one are printed on two lines, although a line has room for both |
| Numbers.HexPairIsPadded | addkernels/addkernels.cpp:54-71 | base 16, width 2 and fill '0' print a byte as its two hex digits |
| Numbers.ParsePrintNat | addkernels/addkernels.cpp:49 | a number printed in base 10 is the decimal numeral for it, without a leading zero |
| CText.ParseDefinition | addkernels/addkernels.cpp:47-86 | a printed definition whose name is an identifier reads back as its name, the exact decimal size, and the data, with one 0x00 behind it if and only if it is to end in a null; the reader has words and digits of its own |
| CText.ParseNameless | addkernels/addkernels.cpp:47-86 | without a variable exactly the elements are printed, to be closed by someone else |
| AddKernels.SplitPathIff | addkernels/addkernels.cpp:127-143 | the path is taken apart unless its last dot lies before its last slash, exactly then `substr` throws; the parts make up the path again, and without a dot there is no extension |
| AddKernels.DottedDirectoryThrows | addkernels/addkernels.cpp:133-143 | the concrete path `a.b/c` makes `substr` throw |
| AddKernels.Process | addkernels/addkernels.cpp:121-188 | one source appends exactly its definition, or stops the program and appends nothing |
| AddKernels.Inline | addkernels/addkernels.cpp:155-184 | each extension runs a fresh inliner with its directive, bracket rule and recursion, and its exception is the one for the first line at fault |
| Sources.DirectivesOf | addkernels/addkernels.cpp:155-174 | by extension, for all lines: `.cl` and `.hpp` are inlined by `#include` with quotes or angle brackets, `.s` by `.include` with quotes only, both only with recursion on; `.cpp` is read for markers only; no other extension is inlined |
| Sources.IncludeLines | addkernels/include_inliner.cpp:127-153 | what one line with a quoted path and one with a path in angle brackets do, for any blanks and letter case |
| Sources.DirectiveSources | addkernels/addkernels.cpp:160-171 | a source of one directive line, for any blanks and letter case: `#include` in `.cl` and `.hpp` and `.include` in `.s` give the file, the other directive is printed as it is, `.include` with angle brackets is an error, without recursion all are printed as they are |
| Sources.PrintedIff | addkernels/addkernels.cpp:121-187 | a source is printed under a name with some bytes if and only if the path has parts, the file opens, the name is the file's in capitals, and the bytes are the file's own or, for the four inlined extensions, the reachable plain lines in reading order |
| Sources.RawSource | addkernels/addkernels.cpp:147-187 | a source of any other extension is printed byte for byte |
| Sources.FailsIff | addkernels/addkernels.cpp:139-184 | the program stops at a source with a given error if and only if the path has no parts, the file does not open, or the exception is the one for its first line at fault |
| Bytes.UpperIff | addkernels/addkernels.cpp:186 | raising a name gives exactly the text without small letters that differs from it only in the case of letters |
| Pipeline.ArrayOrExit | addkernels/addkernels.cpp:121-188 | every source has exactly one array or exactly one error, never both |
| Pipeline.UnitAppend | addkernels/addkernels.cpp:221-224 | two lists of sources, the first without failures, are printed one after the other and end as the second |
| Pipeline.StopsAtFailure | addkernels/addkernels.cpp:149-152 | a list with a source that cannot be printed gives what the sources before the first such one give, and stops with its error |
| Pipeline.PrintedLines | addkernels/addkernels.cpp:121-188 | the text for a source, line by line, is laid out by the buffer and line sizes in their roles |
| AddKernels.ProcessAll | addkernels/addkernels.cpp:221-224 | the sources are printed in order up to the first that fails, each as on a fresh stream |
| AddKernels.Generate | addkernels/addkernels.cpp:212-232 | guard, definitions and closing guard, the last only after success, from any formatting state |
| Pipeline.GeneratedRoundTrip | addkernels/addkernels.cpp:121-232 | for every guard and all sources that can be printed, the whole generated file, read back, is the guard and the array of each source, in order, with the name and exactly the bytes the source stands for, their number in decimal, and one 0x00, if and only if the guard is empty or an identifier, every name is an identifier, no two are equal, none is another's with `_SIZE` behind it, and none takes the guard's name |
| Pipeline.NamedIff | addkernels/addkernels.cpp:47-52 | a definition reads back as its array if and only if its variable name is an identifier that a C program may declare |
| Pipeline.HiddenSourceIsNotNameable | addkernels/addkernels.cpp:133-145 | the concrete source `.cl` has an empty name |
| Pipeline.TwinSourcesClash | addkernels/addkernels.cpp:133-145 | the concrete sources `a/x.cl` and `b/x.cl` cannot be declared in one file |
| Sources.BesideIff | addkernels/addkernels.cpp:139-143 | what a source includes is looked for in that source's directory, in every file system that takes two slashes as one, if and only if its path names a directory; otherwise in the root directory |
| Sources.BareSourceLooksAtRoot | addkernels/include_inliner.cpp:154-155 | the file `x` included by the concrete source `a.cl` is looked for as `/x` |
| Sources.InlinedSourceIff | addkernels/addkernels.cpp:160-184 | an inlined source is printed if and only if what it reaches is well-formed and fits the limit of 256, and its bytes are then the reachable plain lines in reading order |
| Sources.HipSourceIff | addkernels/addkernels.cpp:172-174 | a `.cpp` source is printed unchanged, under its name in capitals, if and only if it has no optional-include marker and no leading newline |
| Sources.HipSourceLosesNewline | addkernels/addkernels.cpp:172-174 | the concrete source `a.cpp` holding one newline is printed as no bytes |
| Sources.BareToolDirective | addkernels/addkernels.cpp:166-171 | with the two directives the tool activates, a directive alone on its line is always refused, whatever its letter case |
| Streams.InputStream.Read | addkernels/addkernels.cpp:59 | a block is the next bytes of the source; only a short read raises the flags |
| Streams.InputStream.TellG | addkernels/addkernels.cpp:61-62 | the position is -1 exactly when the stream is no longer good, so after a short read |
| Streams.InputStream.GetLine | addkernels/include_inliner.cpp:110 | `getline` delivers the next of the lines a text splits into and raises the end flag on the last |

## Left out

- Inliner.IncludeInliner.ProcessCore: does not model an include of a directory, which opens, never reaches its end and
  keeps the loop running; whatever opens is a finite byte string here.
- Markers.InlineByHand: not for runs that overflow, where the replacement makes room for one file more.
- Path canonicalisation (`realpath`, `GetFullPathName`): replaced by the file-system function.
- Low-level read errors and files changing during a run: inputs are finite byte strings.
- HexPrinter.Bin2Hex: assumes no pending field width on the target at entry and default flags for case, sign, base
  prefix and adjustment, as everywhere in the tool; sizes of zero are excluded when there is data, because the loops
  then make no progress.
- Machine integers: `current_line` and offsets are unbounded here. In `Bin2Hex` the sum `i + lineSize` cannot wrap
  around, since it is computed with `i > 0` only when `lineSize` is smaller than the block.
- An empty string stream is taken to seek and tell position 0, as in libstdc++.
- The rest of the C grammar: the reader knows preprocessor lines only as the guard prints them, so a guard with blanks,
  newlines or comments in it, which a compiler may still make sense of, counts as not read back; so do names with an
  underscore in front, which the C standard reserves.
- Exception wording (`What`, `GetMessage`), error output and exit codes: the kind, the file and the trace are kept.
- Option parsing in `main` and the help texts.
- `include/` and `src/`: the public headers only declare, and the kernels are not part of this model.
