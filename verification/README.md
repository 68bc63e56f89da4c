# A verified model of the system logger

The logger traces system calls with BPF programs, turns what they collect into
readable events, and reports how a few system files change as line diffs. This
project models the parts of it that compute something intricate and proves what
they are for.

| file | models |
|---|---|
| `EditGrid.dfy`, `Frontier.dfy` | the edit grid of two sequences, edit distances from both corners, and furthest-reaching ends on diagonals |
| `Middle.dfy` | `search_path` and `find_middle` of `logger/diff.c` over arrays, and their answer |
| `EditScript.dfy` | `shortest_edit_script`: trimming, splitting, recursion and callbacks |
| `Replay.dfy`, `Alignment.dfy` | what a script does when replayed, why none is shorter, and the longest common subsequence |
| `Snapshots.dfy` | `logger/file.c`: line comparison, printed diffs, and the four stored texts over runs of events |
| `PathText.dfy` | texts of directories, names cut into components, and lexical resolution |
| `RightPass.dfy`, `LeftPass.dfy` | the two normalising passes of `logger/helpers.c` as functions on strings, and exactly when each is right |
| `KernelPath.dfy` | `read_path` of `logger/bpf/helpers.h`: the walk up the dentry and mount chain, written backwards into a buffer |
| `ResolvePath.dfy` | `logger/helpers.c`: both programs that join a directory and a relative name, with their cursors, buffer and list |
| `List.dfy` | the intrusive circular list of `logger/list.h` |
| `TextLines.dfy` | the two line readers of `logger/text.c`, one of them in place |
| `Pairing.dfy` | enter and exit handlers of `logger/bpf/file.bpf.c` and `logger/bpf/sock.bpf.c` over interleaved runs of any number of threads |
| `Argv.dfy` | `read_argv` of `logger/bpf/execve.bpf.c` |
| `Sequences.dfy` | what the others share |

## Main results

* The search always finds a middle segment, and exactly one segment answers its
  specification: the reported number is the edit distance, and every point of the segment
  lies on a shortest path, halfway (`Middle.FindMiddle`, `Middle.MiddleIsUnique`,
  `Middle.MiddleOnShortestPath`).
* The number of callbacks is always the edit distance, which is
  n + m - 2 * LCS (`EditScript.ScriptLength`, `Alignment.ScriptLengthIsLcs`), and no script that
  turns a into b is shorter (`Replay.ScriptIsShortest`). The edits keep clear of the common prefix,
  then of the common suffix, and are split by the middle (`EditScript.PrefixUntouched`,
  `EditScript.SuffixUntouched`, `EditScript.MiddleSplits`).
* `shortest_edit_script` as written turns a into b if and only if no split steps over unequal
  elements. It always does when at most three edits are needed, and there are inputs four edits
  apart on which it does not; if both halves share the far end of the segment, its script always
  turns a into b (`Replay.LiteralScriptTurns`, `Replay.NearScriptTurns`,
  `Replay.LiteralScriptCanFail`, `Replay.JoinedScriptTurns`). Over a whole run of file changes, the
  callbacks with their indices rebuild every stored text under the same condition
  (`Snapshots.HandleEvents`). What they print tells which lines come and go but not where
  (`Snapshots.PrintedTells`, `Snapshots.PrintedIsNotEnough`).
* `resolve_full_path` and `fprint_relative_filename` compute lexical resolution, one from right to
  left with a counter, the other from left to right with a list. It is proved exactly on which
  relative and which absolute names the first does (`ResolvePath.FullPathResolves`,
  `ResolvePath.AbsoluteResolves`), and on which the second, below the root and at the root: for every
  name by what it has stacked and counted (`ResolvePath.RelativeFilenameExactly`), without empty
  components by how its components start (`ResolvePath.RelativeFilenameResolves`). On names made for
  both they agree unless parents are left over at the root (`ResolvePath.ProgramsAgree`). Together with
  `read_path` this leads from the kernel's chain, as far as twelve steps reach, to the resolved path
  (`ResolvePath.ResolveFromKernel`), which has nothing left to resolve (`ResolvePath.ResolvedIsClean`).
* Both line readers split a text the same way, and splitting inverts joining
  (`TextLines.TextBufferInit`, `TextLines.TextFileInit`, `TextLines.JoinSplit`, `TextLines.SplitJoin`).
* Over every interleaving, with full hash maps and a full ring buffer, each event tells the
  arguments of its own thread's own call, no call is told twice and no filtered call is told at
  all, and it is said exactly which are told; only a listen whose event cannot be sent, or is sent with a fault, leaves an entry behind
  (`Pairing.EventsAreExplained`, `Pairing.EventTells`, `Pairing.ReportedExactly`,
  `Pairing.OutsideEntries`).

## Where the program departs from its intent

* `bv` is addressed by diagonal (`logger/diff.c:53-54`, `logger/diff.c:87`) but has only
  2 * d_max + 1 cells. The model addresses it by c + d_max. `Middle.FindMiddle` reports every cell
  it reads or writes, the seed included; `Middle.DiagonalsFit` says exactly for which boxes all of
  them exist by the program's own indices, and `Middle.SizesFit` exactly for which sizes they do
  whatever the elements: those that differ by at most one. `Middle.DiagonalsCanMiss` and
  `Middle.SeedCanMiss` give boxes where they do not.
* The halves of a split are separated by the middle segment (`logger/diff.c:119-122`), which need
  not consist of equal elements. `EditScript.Script` and the methods take a flag: `joined == false` is the program
  as written, `joined == true` starts the second half where the first one ends, at the far
  end of the segment. Everything that holds for both is proved for both.
* `diff_add` and `diff_del` print a sign and a line, neither the index nor the lines that stay
  (`logger/file.c:234-258`), so different changes may print the same: `Snapshots.PrintedIsNotEnough`.
* Names of 255 bytes, and what exceeds that, do not survive the mask of `logger/bpf/helpers.h:239`:
  `KernelPath.StoredAsTheyAre` says that exactly names of up to 254 bytes do.
* The walk up the chain ends after twelve steps (`logger/bpf/helpers.h:211`); what lies above is
  missing, and the path looks like a shorter absolute one. `KernelPath.WholeChain` says exactly
  when nothing is missing, `KernelPath.TopNameLost` gives a chain where the topmost name is.
* From the right, a component that is followed by a slash and ends in a dot, as in a./b, is glued to
  what follows, and a tail that is dot or dot-dot is copied as it is: the name .. gives the
  directory's text and two dots. These are exactly the relative names that fit and that
  `resolve_full_path` gets wrong: `ResolvePath.FullPathResolves`, `ResolvePath.DotAtTheEnd`,
  `ResolvePath.TailDotsCopied`.
* From the left, a component or tail that starts with two dots loses three characters or more and
  takes a directory with it: ..data/x is printed as ata/x one directory up. A tail that is a dot is
  copied. Among the names without empty components these, and the empty name, are exactly the ones
  `fprint_relative_filename` does not resolve in every directory below the root:
  `ResolvePath.RelativeFilenameResolves`, `LeftPass.LeadingDotsLost`, `ResolvePath.DotCopied`. An
  empty component counts as one, and is what goes wrong otherwise: `LeftPass.EmptyIsWrong`,
  `LeftPass.EmptyKept`. In a name with both the mistakes may cancel: `LeftPass.MistakesCancel`;
  `LeftPass.RightEverywhere` says exactly when the path is right, whatever the name.
* At the name .. itself, and wherever groups of three characters that start with two dots are
  followed by two dots at the end, this pass steps over the terminator (`logger/helpers.c:172-182`):
  `LeftPass.OverrunExactly`. There the modelled methods come to nothing.
* `get_dir_cptr` never looks at the first character of a directory, so on the root directory with
  parents left over it answers with the place in front of it (`logger/helpers.c:202-207`), and
  the printed path loses its leading slash: `ResolvePath.RelativeFilenameResolves`.
* An absolute name gets one slash too many in front unless a dot-dot is left over at the root
  (`logger/helpers.c:141-144`): `ResolvePath.AbsoluteResolves`. If it fills the buffer, that slash
  is written in front of the buffer; there `ResolvePath.ResolveFullPath` comes to nothing.
* `text_buffer_init` puts a terminator at the end of its copy and then copies over it
  (`logger/text.c:177-179`), so a buffer that holds no terminator, such as that of a write cut to what
  was written (`logger/file.c:306-307`), is read past its end: `TextLines.TextBufferInit` comes to
  nothing exactly there.
* The file reader stores the end-of-file value over the last terminator unless the file ends in a
  newline (`logger/text.c:56`): `TextLines.Text.TerminatedExactlyIf`.
* With an empty argument vector `read_argv` writes nothing, so the buffer keeps what it held:
  `Argv.ReadArgv` says when the joined arguments are there.
* `strcmp_dentry_ranges` accepts a string that is a proper prefix of the path: `ResolvePath.StrcmpDentryRanges`.
* The comment at `logger/text.c:19` promises -1 for a failed reallocation; the code returns 0. Failed
  allocations are not part of this model.

## Model

| member | source | states |
|---|---|---|
| EditGrid.MonotoneAlongDiagonal | logger/diff.c:37-40 | sliding along a diagonal never brings a point nearer to the near corner, so a frontier cell is a threshold |
| Frontier.FurthestIsLast | logger/diff.c:28-41 | a point of the diagonal is within d edits exactly if it is not past the furthest column of round d |
| Frontier.FurthestIsExact | logger/diff.c:28-41 | on a diagonal of the round's parity the furthest point takes exactly d edits |
| Frontier.CandidateReached | logger/diff.c:31-36 | stepping over from the better neighbouring cell lands on a grid point within d edits |
| Frontier.SlideStops | logger/diff.c:31-41 | where the slide stops, the column is the furthest one that d edits reach on the diagonal, in the box and beyond it |
| Frontier.OverlapBoundsDistance | logger/diff.c:42-49 | overlapping frontiers after i and j edits witness a distance of at most i + j, even if they have left the box |
| Frontier.MustMeet | logger/diff.c:88-94 | if the distance is i + j, the frontiers after i and j edits do overlap on some diagonal both rounds visit |
| Frontier.ForwardEndInside | logger/diff.c:45-48 | at the meeting the forward end is inside the box although frontiers may leave it |
| Frontier.BackwardEndInside | logger/diff.c:67-71 | the same for the backward end |
| Frontier.SegmentOnShortestPath | logger/diff.c:66-73 | every point between the ends is inside the box, i edits from one corner and j from the other |
| Middle.Box.Fill | logger/diff.c:15-21 | overwrites all five fields of the box with the answer |
| Middle.MiddleIsUnique | logger/diff.c:25-76 | at most one segment meets the specification of the search, the meeting on the highest diagonal |
| Middle.MiddleOnShortestPath | logger/diff.c:45-48 | both ends lie in the box on one diagonal in order; every point of the segment splits a shortest path into the half of d rounded up and the half rounded down |
| Middle.SlideForward | logger/diff.c:36-40 | the slide ends within the same distance at a point with no equal pair after it |
| Middle.ForwardCell | logger/diff.c:28-41 | writes to cell k of fv, and nowhere else, the furthest column d edits reach on diagonal k |
| Middle.SearchForward | logger/diff.c:28-50 | the forward half round either reports the middle or fills its row of fv with furthest columns and proves that no overlap was missed; the cells of bv it reads are of the round before |
| Middle.SlideBackward | logger/diff.c:60-64 | the backward slide ends within the same distance at a point with no equal pair before it |
| Middle.BackwardCell | logger/diff.c:52-65 | writes to cell c of bv, and nowhere else, the first row from which d edits reach the far corner; reports the cells it uses, itself and one neighbour or both |
| Middle.SearchBackward | logger/diff.c:52-75 | the backward half round either reports the middle or fills its row of bv and proves that no overlap was missed; reports the cells it uses |
| Middle.SearchPath | logger/diff.c:25-76 | one round: the middle of the box, or both rows filled for the next round and a distance above 2 * d |
| Middle.FindMiddle | logger/diff.c:78-98 | never gives up: for every box with elements on both sides it reports the middle segment; the backward cells it fills are those of all rounds before the meeting and, in the meeting round, those down to it, and the cells it reads or writes at all are the touched ones |
| Middle.DiagonalsFit | logger/diff.c:52-87 | addressed by diagonal, all backward cells the program touches, seed, reads and writes, exist if and only if D/2 + delta and (D - 1)/2 - delta do not exceed d_max (with 1 for D/2 below two edits); addressed by c they always do |
| Middle.SizesFit | logger/diff.c:52-87 | for two sizes they exist whatever the elements if and only if the sizes differ by at most one |
| Middle.DiagonalsCanMiss | logger/diff.c:83-87 | for three elements and one with nothing in common a written cell does not exist |
| Middle.SeedCanMiss | logger/diff.c:83-87 | for three elements and one, equal to the second, the seed does not |
| EditScript.TrimFacts | logger/diff.c:104-113 | skipping common ends keeps the distance and leaves no equal pair at either end; the ends skipped are pairwise equal |
| EditScript.AtLeastTwo | logger/diff.c:114-118 | a trimmed box with elements on both sides has a distance of at least two |
| EditScript.SplitInside | logger/diff.c:119-122 | the middle lies in the box, its ends on one diagonal in order, with half of at least two edits before it and half behind it |
| EditScript.SplitFacts | logger/diff.c:119-124 | the halves lie in order in the box, are well-formed and strictly smaller, and their distances add up, with and without the shared point |
| EditScript.ScriptLength | logger/diff.c:100-130 | the number of del and add callbacks is the edit distance, as written and joined |
| EditScript.Accounting | logger/diff.c:104-129 | deleted and added indices are in range and strictly increasing, and as many elements of a as of b are kept, as written and joined |
| EditScript.PrefixUntouched | logger/diff.c:104-108 | no edit falls into a common prefix of the box, as written and joined |
| EditScript.SuffixUntouched | logger/diff.c:109-113 | behind the longest common prefix no edit falls into a common suffix of the rest |
| EditScript.MiddleSplits | logger/diff.c:114-124 | of a box that starts and ends with an edit the first half of the edits, rounded up, lies before the middle segment and the others behind it; both are the scripts of their side |
| EditScript.SkipPrefix | logger/diff.c:104-108 | the loop trims exactly the common prefix |
| EditScript.SkipSuffix | logger/diff.c:109-113 | the loop trims exactly the common suffix |
| EditScript.EmitRest | logger/diff.c:125-129 | one callback for each index that is left, in order |
| EditScript.SplitBox | logger/diff.c:116-122 | finds the middle and makes the two half boxes of it |
| EditScript.ShortestEditScript | logger/diff.c:100-130 | the recursion terminates and appends exactly the script of the box to the caller's data, whose edits lie where `EditScript.PrefixUntouched`, `EditScript.SuffixUntouched` and `EditScript.MiddleSplits` say |
| Replay.OneAfterTheOther | logger/diff.c:123-124 | scripts of neighbouring boxes replay one after the other |
| Replay.ScriptOutcome | logger/diff.c:100-130 | the script of a box always replays, to as many elements as b has there, and to those of b if and only if no split stepped over unequal elements |
| Replay.LiteralScriptTurns | logger/diff.c:100-130 | the program as written turns a into b if and only if all stretches between halves compare equal |
| Replay.TwoByFourSkips | logger/diff.c:119-122 | on two by four elements with two equal pairs the split steps over an unequal pair |
| Replay.LiteralScriptCanFail | logger/diff.c:119-122 | for x, a and a, c, a, b, which are four edits apart, the callbacks as written do not turn the first into the second |
| EditScript.NearSkipsEqual | logger/diff.c:114-124 | a box that takes at most three edits is split between equal pairs only, at every level of the recursion |
| Replay.NearScriptTurns | logger/diff.c:100-130 | so the program as written turns a into b whenever at most three edits are needed |
| Replay.JoinedScriptTurns | logger/diff.c:100-130 | with halves that share a point the script turns a into b, for all a and b |
| Replay.NoShorterScript | logger/diff.c:100-130 | every script that replays the rest of a to the rest of b has at least as many edits as their distance |
| Replay.ScriptIsShortest | logger/diff.c:100-130 | no script that turns a into b has fewer edits than the one emitted |
| Replay.Diff | logger/diff.c:161-167 | comparing two whole sequences logs the script of the whole box |
| Alignment.AlignmentBound | logger/diff.c:25-98 | every kept pair saves two edits, so no common subsequence is longer than the distance allows |
| Alignment.LongestExists | logger/diff.c:25-98 | a longest common subsequence exists, and the distance is n + m minus twice its length |
| Alignment.ScriptLengthIsLcs | logger/diff.c:100-130 | the number of callbacks is n + m - 2 * LCS, as written and joined |
| Snapshots.DiffCmp | logger/file.c:225-232 | returns 0 exactly if both lines agree up to and including what ends them |
| Snapshots.EndAt | logger/file.c:230-230 | a line ends at its first newline or terminator, whichever comes first |
| Snapshots.TextLinesCompare | logger/file.c:225-232 | on lines without newline and terminator inside, that is equality |
| Snapshots.StoredLinesCompare | logger/file.c:284-287 | so on the lines of any two stored texts the callback is the comparison by which they are diffed |
| Snapshots.CallbacksReplay | logger/diff.c:125-129 | the callbacks, with index and line, carry all that is needed: patching with them equals replaying the script |
| Snapshots.CallbacksCarry | logger/diff.c:125-129 | a callback that deletes is handed the old text's line of its index, one that adds the new text's |
| Snapshots.DiffLine | logger/file.c:234-258 | prints the sign, a space, the characters before the line's first newline or terminator, and a newline |
| Snapshots.PrintedSigns | logger/file.c:234-258 | deleted lines are printed whole behind a minus and added ones behind a plus, in order |
| Snapshots.PrintedTells | logger/file.c:234-258 | two sequences of callbacks print the same if and only if their signs and lines agree in order, whatever their indices |
| Snapshots.PrintedIsNotEnough | logger/file.c:234-258 | adding a line in front of two others and adding it between them print the same |
| Snapshots.ScriptInRange | logger/diff.c:125-129 | every index handed to a callback is one of a line |
| Snapshots.DiffPatches | logger/file.c:263-291 | the callbacks of a replacement rebuild the new text exactly if the script turns the old into the new one |
| Snapshots.UsersGroups.FprintDiffFiles | logger/file.c:263-291 | field by field for the four files: the text of the event's file is replaced and the other three stay, the callbacks against the replaced text are recorded and printed behind the heading; no text changes and prints nothing, another file prints the heading only |
| Snapshots.OneMoreEvent | logger/file.c:263-291 | one more event keeps the callbacks made for each file in step with its stored text |
| Snapshots.LatestText | logger/file.c:290-290 | the stored text is that of the file's last event with a text, or the first one if there is none |
| Snapshots.HandleEvents | logger/file.c:263-291 | after any run each stored text is the latest one of its file, and the callbacks made for it rebuild it from the first one: always if joined, and as written if no split stepped over unequal lines |
| KernelPath.StoredAsTheyAre | logger/bpf/helpers.h:239-239 | a chain of names is stored unchanged if and only if every name has at most 254 bytes |
| KernelPath.LongNames | logger/bpf/helpers.h:239-239 | of a name of 255 bytes nothing is left, of one of 256 to 510 bytes those by which it exceeds 256 |
| KernelPath.CoreReadStr | logger/bpf/helpers.h:244-245 | copies the bytes of a name and its terminator, and touches nothing else |
| KernelPath.StoreName | logger/bpf/helpers.h:239-251 | puts a name and its separator in front of what is there |
| KernelPath.ClimbOne | logger/bpf/helpers.h:211-253 | one round of the walk; its name never makes the unsigned offset wrap |
| KernelPath.Climb | logger/bpf/helpers.h:211-253 | after at most twelve steps the buffer holds the names collected, unless a step it comes to fails; the name-too-long exit is never taken |
| KernelPath.Finish | logger/bpf/helpers.h:254-257 | the leading slash, the terminator and the offset make a C string of it |
| KernelPath.ReadPath | logger/bpf/helpers.h:186-258 | leaves the path of the dentry, as far as twelve steps reach, as a C string at the returned offset, with a trailing slash for a directory; fails if and only if a kernel read fails in a round it comes to, and then leaves an empty path |
| KernelPath.WholeChain | logger/bpf/helpers.h:211-253 | so many steps collect the whole chain of names if and only if no dentry reached later has a name |
| KernelPath.TopNameLost | logger/bpf/helpers.h:211-253 | of a chain of thirteen names the program collects twelve |
| KernelPath.AcrossMount | logger/bpf/helpers.h:219-235 | of a file in a mount on a directory the names are the directory and the file: the boundary adds none |
| KernelPath.LadderRounds | logger/bpf/helpers.h:211-236 | in a chain below the root the rounds that read the kernel are one for each name and two for the root, at most n |
| KernelPath.DirectoryAndFile | logger/bpf/helpers.h:198-198 | a directory's path ends in a slash, a file's lacks it |
| PathText.ResolveFirst | logger/helpers.c:121-140 | lexical resolution may also be done from the first component on |
| PathText.ResolveLaws | logger/helpers.c:121-140 | a name goes behind the directory, dot-dot takes it off again, dot and nothing change nothing, and above the root there is the root |
| RightPass.RightToLeftResolves | logger/helpers.c:121-140 | for every relative name and directory: what the pass with a parent counter keeps, behind the directory it left that many levels of, is the lexically resolved path if and only if the tail is neither dot nor dot-dot and no component followed by a slash ends in a dot, dot and dot-dot aside |
| RightPass.DotSkipped | logger/helpers.c:122-129 | from the right a dot before a slash is skipped with it, whatever comes before it but a dot |
| RightPass.TwoDotsSkipped | logger/helpers.c:122-129 | two dots before a slash are skipped with it and count one parent, whatever comes before them |
| RightPass.EmptyFromRight | logger/helpers.c:130-131 | of two slashes one is skipped |
| RightPass.PlainFromRight | logger/helpers.c:132-138 | any other component is skipped for a pending parent and kept otherwise |
| LeftPass.RightEverywhere | logger/helpers.c:163-195 | for every name: the path is right in every directory below the root if and only if the tail is neither dot nor dot-dot, what is stacked spells the components that are kept and the tail, and the count is that of the parents left over; then it is right in the root too |
| LeftPass.LeftToRightResolves | logger/helpers.c:163-195 | of the names without empty components the pass with a stack resolves, in every directory, exactly those whose tail is no dot and in which neither the tail nor a component, dot-dot aside, starts with two dots |
| LeftPass.EmptyIsWrong | logger/helpers.c:186-192 | of the names with no such tail or component, it resolves in every directory exactly those without an empty component |
| LeftPass.OverrunExactly | logger/helpers.c:172-183 | the pass steps over the terminator if and only if the tail is groups of three characters that start with two dots, and two dots |
| LeftPass.DotDotIsOverrun | logger/helpers.c:172-183 | it does on dot-dot alone |
| LeftPass.LeadingDotsLost | logger/helpers.c:172-183 | a component that starts with two dots loses three characters and a directory |
| LeftPass.DotsStep | logger/helpers.c:172-183 | from the left two dots and one more character, whatever it is, take the last component off or count one parent |
| LeftPass.EmptyStep | logger/helpers.c:186-192 | a slash on its own is stacked |
| LeftPass.EmptyKept | logger/helpers.c:186-192 | an empty component is stacked, and dot-dot takes it off |
| LeftPass.MistakesCancel | logger/helpers.c:172-193 | of a name with an empty component and one that starts with two dots, as a//..b/../c, the path may be right |
| LeftPass.PassesAgree | logger/helpers.c:163-195 | on names made for both, the two passes keep the same text and are left with the same number of parents |
| ResolvePath.FindParentDentry | logger/helpers.c:103-113 | answers with the end of the directory that many levels up, and stays at the root |
| ResolvePath.GetDirCptr | logger/helpers.c:197-208 | the same search, except that on the root directory with parents left over it answers with the place before the first character |
| ResolvePath.SkipComponent | logger/helpers.c:132-135 | skips one component to the left |
| ResolvePath.CopyKept | logger/helpers.c:118-140 | the loop leaves what the right-to-left pass keeps at the end of the buffer and counts its pending parents |
| ResolvePath.CopyBack | logger/helpers.c:149-149 | copies the directory in front of it |
| ResolvePath.ResolveFullPath | logger/helpers.c:115-153 | the buffer ends in the joined path and its terminator, or in the kept name alone if the directory does not fit; it comes to nothing exactly for an absolute name that does not fit with its slash |
| ResolvePath.ComponentEnd | logger/helpers.c:189-191 | finds the end of the component, slash included |
| ResolvePath.NextComponent | logger/helpers.c:165-193 | one round skips a dot, takes the last component off for a dot-dot or counts a parent, appends a component, or steps over the terminator |
| ResolvePath.GetFilenameCptrs | logger/helpers.c:163-195 | for every name: the list holds exactly the components the left-to-right pass stacks and the result is its count of left-over parents, or the pass steps over the terminator, which it does exactly on tails like dot-dot |
| ResolvePath.FprintRelativeFilename | logger/helpers.c:231-242 | for every name: prints the directory that many levels up and then the listed components, unless the pass steps over the terminator |
| ResolvePath.FullPathResolves | logger/helpers.c:115-153 | for every relative name, directory and buffer size, the result is the resolved path if and only if that fits, the tail is neither dot nor dot-dot and no component followed by a slash ends in a dot, dot and dot-dot aside |
| ResolvePath.AbsoluteResolves | logger/helpers.c:115-144 | the result for an absolute name is the resolved path from the root, with a doubled leading slash unless a dot-dot is left over there, if and only if its tail and components are like that |
| ResolvePath.TooLongForBuffer | logger/helpers.c:145-152 | a path of such components that does not fit leaves what stands behind the directory, a name without slash itself |
| ResolvePath.NoName | logger/helpers.c:231-242 | of an empty name the first program makes the directory, if it fits, and the other prints nothing |
| ResolvePath.RelativeFilenameExactly | logger/helpers.c:231-242 | for every name: it prints the resolved path in every directory below the root if and only if the name is not empty and the pass ends like that, and in the root as well if and only if no parents are left over |
| ResolvePath.RelativeFilenameCopies | logger/helpers.c:231-242 | of names its pass is made for it prints the components resolved and the tail as it is, without the leading slash from the root with parents left over |
| ResolvePath.RelativeFilenameResolves | logger/helpers.c:231-242 | of the names without empty components it prints the resolved path in every directory below the root exactly for the non-empty ones the pass is made for; in the root as well exactly if no parents are left over |
| ResolvePath.ProgramsAgree | logger/helpers.c:115-153 | on names made for both, their tails copied, the two programs give the same text if and only if no parents are left over at the root |
| ResolvePath.DotAtTheEnd | logger/helpers.c:122-129 | outside the grammar they differ: of a./b one pass keeps ab, the other a./ and b |
| ResolvePath.TailDotsCopied | logger/helpers.c:121-140 | the names dot and dot-dot give the directory with one or two dots behind it, which resolved would be itself and its parent |
| ResolvePath.DotCopied | logger/helpers.c:172-193 | from the left the name dot gives the directory with a dot behind it |
| ResolvePath.ResolvedIsClean | logger/helpers.c:115-153 | the resolved path is a slash, directory entries each with a slash and possibly one more entry: no dot, dot-dot or empty component anywhere in it, its tail included |
| ResolvePath.ResolveFromKernel | logger/helpers.c:145-152 | the layout read_path leaves for a directory is the one the search needs: from the names of the chain, as far as twelve steps reach, to the resolved path, if and only if that fits and the name is one resolve_full_path resolves |
| ResolvePath.StrcmpDentryRanges | logger/file.c:473-483 | answers with a range if and only if the string is a prefix of all ranges put together and there is a range, and with the one in which the string ends |
| List.ListInsert | logger/list.h:53-59 | links a node between two neighbours; next and prev stay inverse |
| List.ListAdd | logger/list.h:61-63 | puts the entry in front of the sequence |
| List.ListAddTail | logger/list.h:65-68 | puts the entry at the end of the sequence |
| List.ListDelete | logger/list.h:70-73 | unlinks what lies between two nodes |
| List.ListDeleteTail | logger/list.h:75-77 | takes the last entry off the sequence |
| List.ListDeleteNode | logger/list.h:79-83 | takes a node out of the middle and clears its links |
| List.ForEach | logger/list.h:44-46 | visits the entries in order, each once, and ends |
| List.ForEachSafe | logger/list.h:48-51 | visits every node once although the body destroys it |
| TextLines.JoinSplit | logger/text.c:136-150 | joining the segments with newlines gives the text back, and no segment holds a newline |
| TextLines.SplitJoin | logger/text.c:136-150 | splitting gives joined segments back |
| TextLines.LinesReadBack | logger/text.c:136-150 | lines written out one by one are read back as they were, with or without a last newline |
| TextLines.EmptySegmentDropped | logger/text.c:140-146 | an empty segment behind the first makes no line |
| TextLines.LinesAreClean | logger/text.c:136-150 | no line holds a newline or a terminator |
| TextLines.LinesFit | logger/text.c:173-182 | what is read, terminators included, fits where the text was |
| TextLines.LineAt | logger/text.c:136-150 | the table points at each line, which ends in a terminator right in front of the next one |
| TextLines.Text.CheckUpdateLinesReserved | logger/text.c:21-30 | doubles the table when it is full and keeps its entries |
| TextLines.Text.AddLine | logger/text.c:142-146 | appends a line start through any number of doublings |
| TextLines.Text.NewlineRound | logger/text.c:140-146 | a run of newlines ends the line; the next line starts right behind its terminator |
| TextLines.Text.BufferReadLines | logger/text.c:136-150 | in place, with the write cursor never past the read cursor: the buffer holds the first segment and the non-empty others, each terminated, the table says where each starts, and the size is their sum |
| TextLines.TextBufferInit | logger/text.c:173-186 | a text made of a buffer holds the lines up to its terminator, and comes to nothing if and only if there is none in its first size bytes |
| TextLines.Text.FileNewlineRound | logger/text.c:57-64 | the same round over a stream |
| TextLines.Text.FileReadLines | logger/text.c:52-68 | line table, size and all characters but the last terminator are right for every content; that one depends on the last newline |
| TextLines.Text.TerminatedExactlyIf | logger/text.c:56-61 | the file reader leaves the lines of the file if and only if it ends in a newline |
| TextLines.TextFileInit | logger/text.c:70-90 | for every content: table, size and all characters but the last are those of its lines, and the last is their terminator if the file ends in a newline and the byte 255 otherwise; so both readers hold the same lines for every text that ends in a newline |
| Pairing.AlwaysPaired | logger/bpf/file.bpf.c:344-423 | over every scheduled run, each entry is that of the call its thread is in or was left behind by a listen, and every call that reached its hash map has its entry there |
| Pairing.EntryOfExit | logger/bpf/file.bpf.c:394-396 | an exit handler finds an entry exactly if the call it leaves was accepted and stored, and then the arguments of that call |
| Pairing.EventsAreExplained | logger/bpf/file.bpf.c:486-537 | each event is that of its own thread's own accepted call, no call is told twice, and events come in the order of the exits |
| Pairing.EventTells | logger/bpf/file.bpf.c:572-591 | each event tells the thread, the call, the result and every argument the call was entered with, except that a change of mode or owner with the empty-path flag has no name |
| Pairing.RecordTells | logger/bpf/file.bpf.c:617-653 | each event comes in the record that fits its names and descriptors |
| Pairing.ReportedExactly | logger/bpf/file.bpf.c:344-371 | exactly which exits report: of a call that was on a regular file and not the logger's where it reads or writes, that found its entry or room in its hash map, on an open internet socket where it is one, with room for the event |
| Pairing.NoReportIsMissing | logger/bpf/file.bpf.c:617-668 | every exit of a stored call that can send its event does |
| Pairing.OnlyReports | logger/bpf/file.bpf.c:617-668 | no other exit is among the reports |
| Pairing.OutsideEntries | logger/bpf/sock.bpf.c:313-328 | a thread in no call has an entry if and only if its last listen left one behind |
| Pairing.LeftBehindExactly | logger/bpf/sock.bpf.c:313-328 | a listen leaves its entry behind exactly on an internet socket when its event finds no room or has a fault |
| Pairing.TablesShared | logger/bpf/sock.bpf.c:62-70 | connect and listen share a hash map and no other two calls do |
| Pairing.EntriesAreInside | logger/bpf/file.bpf.c:420-421 | handlers that always delete keep only entries of threads inside their calls |
| Pairing.ListenLeavesBehind | logger/bpf/sock.bpf.c:324-326 | a listen whose event finds no room leaves its entry behind |
| Pairing.WithinCapacity | logger/bpf/file.bpf.c:33-38 | no hash map ever holds more than 128 entries |
| Pairing.Tracepoints.UpdateElem | logger/bpf/file.bpf.c:369-369 | an old key is overwritten, a new one is stored while its hash map has fewer than 128 |
| Pairing.Tracepoints.OnSysEnterFile | logger/bpf/file.bpf.c:344-371 | stores the arguments unless the thread is the logger's, the descriptor has no file or the file is not regular |
| Pairing.Tracepoints.OnSysEnterName | logger/bpf/file.bpf.c:486-504 | stores the arguments |
| Pairing.Tracepoints.OnSysEnterChange | logger/bpf/file.bpf.c:572-591 | stores the arguments, without a name if the empty-path flag is set |
| Pairing.Tracepoints.OnSysEnterSock | logger/bpf/sock.bpf.c:62-65 | stores the arguments in the table connect and listen share |
| Pairing.Tracepoints.OnSysExitFile | logger/bpf/file.bpf.c:391-423 | sends the stored arguments if there is room, and deletes them either way |
| Pairing.Tracepoints.OnSysExitName | logger/bpf/file.bpf.c:617-668 | the same, in the record that fits the name |
| Pairing.Tracepoints.OnSysExitRename | logger/bpf/file.bpf.c:867-914 | the same, in the record that fits both names and descriptors |
| Pairing.Tracepoints.OnSysExitSock | logger/bpf/sock.bpf.c:191-204 | deletes first, then sends unless the socket is closed or of another family |
| Pairing.Tracepoints.OnSysExitListen | logger/bpf/sock.bpf.c:313-328 | sends first, and deletes only if that went well |
| Pairing.Trace | logger/bpf/file.bpf.c:344-423 | the handlers themselves, run over any scheduled run, leave the explained events in the ring buffer |
| Argv.JoinedLength | logger/bpf/execve.bpf.c:65-65 | the offset, the sum of stored lengths, is the length of the joined text with its terminator |
| Argv.JoinedMore | logger/bpf/execve.bpf.c:59-65 | one more argument adds a space and its first 255 bytes, or all of it |
| Argv.ProbeReadUserStr | logger/bpf/execve.bpf.c:59-59 | stores all of a shorter argument and the first 255 bytes of any other, a terminator behind them, and returns their number; what cannot be read leaves 256 terminators |
| Argv.AppendArg | logger/bpf/execve.bpf.c:59-65 | puts a space in place of the terminator before it; stays within the buffer |
| Argv.ReadArgv | logger/bpf/execve.bpf.c:45-68 | joins the arguments with spaces, each cut to 255 bytes; on every early exit the part joined so far is intact; says for each outcome why it was taken |

## Left out

- `longest_common_subseq` (`logger/diff.c:132-159`): unused.
- `text_buffer_read_lines_const` and `text_buffer_const_init` (`logger/text.c:118-128`, `logger/text.c:188-197`): unused.
- Failed allocations, mutexes, files and ring-buffer polling; output is a sequence of characters or of events.
- Credentials, namespaces, capabilities and the fields of sockets: arbitrary values, of which the handlers see only what steers their branches.
- `fill_sys_renameat` (`logger/bpf/file.bpf.c:823-844`): which of the two names it calls relative; rename is an enter and an exit handler here.
- `sys_exit_accept` (`logger/bpf/sock.bpf.c:223-239`): it has no enter handler.
- Enter and exit handlers of execve: they have the form of those of unlink. Only `read_argv` is modelled.
- The scratch record an enter handler fills before it stores it: it belongs to one processor, and a handler is not interrupted by another there.
- Pairing.EventsAreExplained: the schedules do not reuse the id of a thread that was killed inside a call.
- Pairing.Tracepoints.UpdateElem: a hash map refuses a key only when it is full.
- `dentry_ranges_init` (`logger/helpers.c:210-219`): its list is that of `ResolvePath.GetFilenameCptrs` with the directory put in front by `List.ListAdd`. ResolvePath.StrcmpDentryRanges takes a list of the strings themselves.
- Middle.SearchPath: the two loops are two methods, and the body of each has one for its cell; the arrays and the box are updated in place as in the source.
- EditScript.Script: the callback that compares is a function of two indices; what del and add do to the caller's data is to append to a log.
- LeftPass.LeftToRightResolves: its condition by components is for names without empty components. With an empty component and one that starts with two dots the mistakes may cancel (`LeftPass.MistakesCancel`), so the condition for every name, `LeftPass.RightEverywhere`, compares the whole outcome of the pass. The same holds for `ResolvePath.RelativeFilenameResolves` and `ResolvePath.RelativeFilenameExactly`.
- ResolvePath.ResolveFullPath: that the program writes in front of the buffer is not modelled; the method comes to nothing there.
- ResolvePath.GetFilenameCptrs: what the program reads behind the terminator is not modelled; the method comes to nothing there.
- KernelPath.ReadPath: reads of the path structure itself fail like those of its first step; a failed read of a name counts as a failed step.
- TextLines.TextBufferInit: what the program reads behind its buffer is not modelled; the method comes to nothing there.
- TextLines.Text.FileReadLines: contents with the byte 0xFF, which the program takes for the end of the file, are excluded.
- Snapshots.UsersGroups.FprintDiffFiles: stored texts are sequences of lines; that the old text is freed after the comparison is not modelled.
