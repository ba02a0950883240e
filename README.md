# sausage: usage-section locator and splice, in Dafny

`sausage.py` copies the help message of one or more command-line programs into a
Markdown document. For each program, the document must hold exactly one line that
contains the program's usage tag (`usage: <stem of the program's path>`), inside a
fenced code block delimited by lines that start with three backticks. The tool
replaces the block's content with the program's help text, indented by four spaces.
Programs are handled in command-line order, and each one sees the document as the
earlier ones left it.

This project models the core of that tool:

- `PyStr` holds the Python string operations the core relies on. These are
  `strip()` over Python's white-space set, ASCII `lower()`, the `in` substring
  test, `startswith`/`endswith`, `split("\n")`, and the first item of `split()`.
  Each comes with lemmas that characterise it.
- `Tags` covers tag derivation (`sausage.py:51-55`).
  - `Derive` is the specification. `DeriveTags` is the loop, proved equal to it.
  - It includes a POSIX model of `Path(..).name` and `Path(..).stem`.
  - A non-empty, all-blank command makes `cmd.split()[0]` raise `IndexError`. The model gives it an explicit `BlankCommand` outcome.
- `Locator` covers `index_usage_section` (`sausage.py:83-126`).
  - `Locate` is the specification. It returns `Resolved(before, after)`, or `Unresolved(reason)` where the code calls `sys.exit(1)`.
  - `IndexUsageSection` is the code's two loops (`ScanLines`, `EnclosingFences`), proved equal to `Locate`.
  - Lemmas characterise every outcome in terms of the document's lines.
- `Splicing` covers the splice expression in `main` (`sausage.py:160-167`).
  - Splicing is idempotent under three conditions: the help text holds the tag on exactly one of its lines, none of its lines is a fence, and the opening fence line does not itself hold the tag.
  - Splicing into one block moves a later block by the change in length and leaves an earlier block where it was, as long as the help text does not hold that block's tag.
- `Session` covers the per-command loop of `main` (`sausage.py:154-167`).
  - `Run` is the specification, built on a generic `Fold` with one `Step` per pair.
  - `ProcessDocument` is the loop, proved equal to `Run`.
  - `Process` chains tag derivation and the loop.
  - `RunTwo` shows that two commands whose blocks are apart give the same document in either order, as long as neither help text holds the other's tag.
- `Examples` works through the repository's test expectations (`test_sausage.py`) and an end-to-end run.

Points where the code's behaviour is easy to misread:

- Tag matching lowercases only the document line (`sausage.py:98`), never the tag.
  - A tag derived from a command with a capital letter (`Cmd3`) is therefore never found, and the run stops.
  - The repository's own tests expect such tags to resolve (`test_sausage.py:31-32` with `test_sausage.py:54-56`).
  - `Locator.UpperCaseTagNotFound` and `Examples.CapitalisedTagNotFound` state what the code does.
- A tag that cannot be resolved stops the whole run through `sys.exit(1)` (`sausage.py:101-124`). No later command is handled and nothing is written. `Session.RunAborted` states this.
- Every inserted line gets the four-space indent, blank help lines included (`sausage.py:165-167`). `Examples.EndToEnd` shows a blank help line becoming `"    "`.
- The indent is fixed at four spaces. The code has no indent, usage-only or compare-tool option, no warning log and no "changed" flag. The test reads `opts.indent_level` and `opts.diff_tool` (`test_sausage.py:22-23`), but `AppOptions` has neither field.

## Model

| member | source | states |
|---|---|---|
| PyStr.IsSpace | sausage.py:95 | the characters for which `str.isspace()` holds, which are what `strip()` and `split()` remove |
| PyStr.TrimLeft | sausage.py:95 | `lstrip()`, the white-space cut of `strip()` on the left; what it leaves is stated by `TrimLeftSpec` |
| PyStr.TrimRight | sausage.py:95 | `rstrip()`, the white-space cut of `strip()` on the right; what it leaves is stated by `TrimRightSpec` |
| PyStr.Strip | sausage.py:95 | `strip()` as `lstrip` followed by `rstrip`; what it leaves is stated by `StripSpec` and `StripUnique` |
| PyStr.TrimLeftSpec | sausage.py:95 | `lstrip` leaves a suffix, every removed character is white space, and the result does not start with white space |
| PyStr.TrimRightSpec | sausage.py:95 | `rstrip` leaves a prefix, every removed character is white space, and the result does not end with white space |
| PyStr.StripSpec | sausage.py:95 | `strip` leaves a contiguous piece of the line with only white space around it; the piece neither starts nor ends with white space |
| PyStr.StripUnique | sausage.py:95 | any piece of a line that neither starts nor ends with white space, with only white space around it, is the line's `strip()`, so `strip` is determined by those properties |
| PyStr.StartsWith | sausage.py:96 | `str.startswith`: the prefix is the string's first characters |
| PyStr.EndsWith | sausage.py:96 | `str.endswith`: the suffix is the string's last characters |
| PyStr.LowerChar | sausage.py:98 | a lowered character is never an ASCII capital; capitals move by 32 code points, and every other character is kept |
| PyStr.Lower | sausage.py:98 | `lower()` keeps the length and lowers each character in place |
| PyStr.Contains | sausage.py:98 | the `in` test on strings; `ContainsAt` states what it means |
| PyStr.ContainsAt | sausage.py:98 | `t in s` holds exactly when `t` occurs in `s` at some offset |
| PyStr.NoUpperNotContained | sausage.py:98 | a string without capitals never contains a string with a capital |
| PyStr.Split | sausage.py:167 | `split("\n")` gives one piece more than there are newlines, no piece holds a newline, and joining the pieces with newlines gives the text back |
| PyStr.SplitJoin | sausage.py:167 | splitting the join of newline-free pieces gives the pieces back |
| PyStr.JoinSnoc | sausage.py:54 | joining one more piece adds the separator and that piece at the end |
| PyStr.SplitSnoc | sausage.py:54 | a text, a separator and a piece without the separator split into the text's pieces followed by that piece |
| PyStr.Word | sausage.py:54 | the leading word is a prefix free of white space, followed by white space or the end |
| PyStr.FirstWord | sausage.py:54 | `split()[0]` is absent exactly when the command is all white space; otherwise it is a non-empty word free of white space that starts where the leading white space ends and is followed by white space or the end |
| PyStr.FirstWordOf | sausage.py:54 | a non-empty word free of white space followed by white space, or by nothing, is the `split()[0]` of the text |
| Tags.Dropped | sausage.py:54 | the path components `PurePosixPath` drops: empty ones and `.` |
| Tags.Components | sausage.py:54 | the kept path components are never dropped ones, and there are no more of them than pieces |
| Tags.ComponentsAppend | sausage.py:54 | the components of two runs of pieces are those of each run |
| Tags.ComponentsMembers | sausage.py:54 | every component is one of the pieces, and every piece that is not dropped is a component |
| Tags.ComponentsLast | sausage.py:54 | there are no components exactly when every piece is dropped; otherwise the last component is a piece after which every piece is dropped |
| Tags.PathName | sausage.py:54 | `Path(p).name` is the last piece of the path that is neither `""` nor `"."`, and `""` when there is no such piece; it holds no slash, and a plain name is its own name |
| Tags.PathNameAfterSlash | sausage.py:54 | the name of a path ending in `/` and a file name is that file name, whatever the directory |
| Tags.LastIndexOf | sausage.py:54 | `rfind` returns -1 or an index of the character, with no occurrence after it |
| Tags.Stem | sausage.py:54 | the stem is a prefix of the name; when it is shorter, a dot that is neither first nor last follows it and no dot comes later; a name without a dot is its own stem; the name is its own stem exactly when its last dot is first, last or absent |
| Tags.StemOfDotted | sausage.py:54 | a non-empty base, a dot and a non-empty suffix without a dot has the base as stem |
| Tags.UsageTag | sausage.py:54 | a command has a tag exactly when it is not all white space; the tag starts with `usage: ` and holds no slash after it |
| Tags.TagOfPath | sausage.py:54 | a command whose first word is `dir/base.ext`, followed by arguments or nothing, is tagged `usage: base`; for example, `./bin/tool.py -x` gets `usage: tool` |
| Tags.IsBlank | sausage.py:53-54 | a command the `0 < len(cmd)` test keeps but on which `cmd.split()[0]` raises `IndexError`: non-empty and without a first word |
| Tags.NonEmpty | sausage.py:52-53 | the kept commands are non-empty commands of the input, every non-empty command is kept, and there are no more of them than commands |
| Tags.NonEmptyAppend | sausage.py:52-53 | the kept commands of two runs of commands are those of each run |
| Tags.Derive | sausage.py:51-55 | the derivation loop's result, one command after the other; what it computes is stated by `DeriveAll`, `DeriveStops` and `DeriveBlank` |
| Tags.DeriveTags | sausage.py:51-55 | the derivation loop computes `Derive` |
| Tags.DeriveBlankSticks | sausage.py:52-55 | once a blank command has stopped the derivation, later commands change nothing |
| Tags.DeriveStops | sausage.py:52-55 | derivation succeeds exactly when no command is blank, and otherwise names the first blank command |
| Tags.DeriveBlank | sausage.py:53-54 | derivation stops at command `i` exactly when `i` is the first blank command |
| Tags.StopsAfterBlank | sausage.py:52-55 | a command after a blank one changes neither the derivation nor which command is the first blank one |
| Tags.StopsAfterDerived | sausage.py:52-55 | after non-blank commands, derivation succeeds exactly when the last command is not blank, and otherwise stops at it |
| Tags.TaggedSnoc | sausage.py:55 | appending a command and its tag keeps every command paired with its own tag |
| Tags.DeriveAll | sausage.py:51-55 | with no blank command, there is one pair per non-empty command, in input order, each carrying that command and its tag |
| Tags.DeriveSnoc | sausage.py:52-55 | a tagged command appended to the commands appends its pair to the derived ones |
| Tags.DeriveSkip | sausage.py:53 | an empty command appended to the commands adds no pair |
| Tags.DeriveOne | sausage.py:51-55 | one tagged command gives one pair |
| Tags.DerivePair | sausage.py:51-55 | two tagged commands give two pairs in order |
| Locator.IsFenceLine | sausage.py:96 | a fence is a stripped line that starts with three backticks and is not both longer than six characters and ending with three backticks |
| Locator.IsUsageLine | sausage.py:98 | a line holds the tag when the tag is in the line stripped and lowered; the tag itself is not lowered |
| Locator.FenceIndices | sausage.py:94-97 | the recorded fence indices increase, lie within the document, and are exactly the fence lines |
| Locator.UsageIndices | sausage.py:94-99 | the recorded usage indices increase, lie within the document, and are exactly the lines whose lowered, stripped text contains the tag |
| Locator.LastAtOrBefore | sausage.py:114-116 | the chosen fence is at or before the usage line and is the last such one; there is none exactly when every fence is after it |
| Locator.FirstAfter | sausage.py:114-118 | the chosen fence is after the usage line and is the first such one; there is none exactly when no fence is after it |
| Locator.Locate | sausage.py:83-126 | a resolved range satisfies `before < after < len(doc)` |
| Locator.ScanLines | sausage.py:90-99 | the scanning loop records exactly `FenceIndices` and `UsageIndices` |
| Locator.EnclosingFences | sausage.py:111-118 | the loop over the fence indices finds exactly `LastAtOrBefore` and `FirstAfter` |
| Locator.IndexUsageSection | sausage.py:83-126 | `index_usage_section` computes `Locate`, with each `sys.exit(1)` as an `Unresolved` reason |
| Locator.UsageIndicesUnique | sausage.py:94-99 | a tag held by exactly one line is recorded once, at that line |
| Locator.LocateNotFound | sausage.py:101-104 | resolution fails with "not found" exactly when no line holds the tag |
| Locator.LocateAmbiguous | sausage.py:106-109 | resolution fails as ambiguous exactly when two different lines hold the tag |
| Locator.LocateResolvedIff | sausage.py:111-126 | for a tag held by one line `u`, resolution gives `(b, a)` exactly when `b <= u < a`, both are fence lines, and no fence lies strictly between them |
| Locator.LocateEnclosing | sausage.py:111-118 | a tag held by one line `u` that resolves to `(b, a)` has `b <= u < a`, fences at `b` and `a`, and no fence strictly between |
| Locator.EnclosingLocates | sausage.py:111-118 | conversely, such a block around the tag's only line is what resolution gives |
| Locator.Bracketed | sausage.py:113-118 | in increasing fence indices with none strictly between `b` and `a`, for `b <= u < a` the last index at or before `u` is `b` and the first after it is `a` |
| Locator.NoFenceAtOrBefore | sausage.py:114-120 | no fence index is at or before `u` exactly when no line up to `u` is a fence |
| Locator.NoFenceAfter | sausage.py:116-120 | no fence index is after `u` exactly when no line after `u` is a fence |
| Locator.LocateNoFence | sausage.py:120-124 | for a tag held by one line, resolution fails for lack of fences exactly when no fence is at or before it, or none is after it |
| Locator.LocateResolved | sausage.py:101-126 | a resolved tag is held by exactly one line |
| Locator.ResolvedUsage | sausage.py:111-126 | a resolved range encloses the tag's only line, from fence to fence, with no fence between |
| Locator.BlockResolves | sausage.py:111-126 | a tag held by one line inside a fence-bounded block with no inner fence resolves to that block |
| Locator.UpperCaseTagNotFound | sausage.py:98 | a tag containing an ASCII capital is never found, whatever the document |
| Splicing.HelpLines | sausage.py:165-167 | one inserted line per newline-separated piece of the help text, each being four spaces followed by the piece |
| Splicing.Splice | sausage.py:160-167 | the splice keeps lines `0..before` and `after..`, inserts exactly the indented pieces between them, and has length `(before+1) + pieces + (len(doc) - after)` |
| Splicing.StripIndented | sausage.py:95 | the indentation never changes what `strip()` leaves of a line |
| Splicing.HelpLineClass | sausage.py:94-98 | an inserted line is a fence, or holds a tag, exactly when its help-text piece does |
| Splicing.HelpLinesClass | sausage.py:94-98 | a help text with the tag on piece `j` only and no fence gives inserted lines with the tag on line `j` only and no fence |
| Splicing.HelpLinesFree | sausage.py:94-98 | no inserted line holds the tag when no piece of the help text does |
| Splicing.ReplacedUsage | sausage.py:160-167 | putting lines that hold the tag once in place of the block around the tag's only line, where that line lies strictly inside the block and not on its opening fence, leaves the tag on that one new line only |
| Splicing.ReplacedBlock | sausage.py:160-167 | putting fence-free lines in place of a block leaves a block from the same opening fence to the line after them |
| Splicing.ReplacedResolves | sausage.py:160-167 | putting fence-free lines that hold the tag on one line only in place of the block around the tag's only line, where that line lies strictly inside the block and not on its opening fence, gives a document that resolves the tag to the new block |
| Splicing.ReplaceAgain | sausage.py:160-167 | putting the same lines in place of the block just written gives the same document |
| Splicing.SpliceAgain | sausage.py:160-167 | splicing the same help text again into the block just written changes nothing |
| Splicing.SpliceResolves | sausage.py:154-167 | after a splice into the block around the tag's only line, where that line is not the opening fence and the help text holds the tag on one piece and has no fence piece, the tag resolves to the block just written |
| Splicing.SpliceIdempotent | sausage.py:154-167 | when the help text holds the tag on exactly one piece, has no fence piece, and the opening fence does not hold the tag, the spliced document resolves the tag to the new block, and splicing again there leaves it unchanged |
| Splicing.ShiftedBefore | sausage.py:94-126 | replacing a block after the block around the tag's only line, with lines that do not hold the tag, leaves the tag resolved to its block |
| Splicing.ShiftedAfter | sausage.py:94-126 | a document whose first `n` lines do not hold the tag, followed by the lines of `doc` from `a` on, resolves the tag to its block moved from `a` to `n` |
| Splicing.ReplacedBefore | sausage.py:160-167 | replacing a block after the tag's resolved block, with lines that do not hold the tag, keeps the tag's block where it was |
| Splicing.ReplacedAfter | sausage.py:160-167 | replacing a block before the tag's resolved block, with lines that do not hold the tag, moves the tag's block by the change in length |
| Splicing.ReplacedBlockAfter | sausage.py:160-167 | the same, for the tag's only line and the block around it |
| Splicing.TwoReplacements | sausage.py:160-167 | replacing two blocks that are apart gives the same lines in either order, once the later block's position is moved by the change in length the earlier replacement made |
| Splicing.SpliceKeepsEarlier | sausage.py:154-167 | a splice into a later block, whose help text does not hold the tag, keeps the tag's block where it was |
| Splicing.SpliceMovesLater | sausage.py:154-167 | a splice into an earlier block, whose help text does not hold the tag, moves the tag's block by the change in length |
| Session.HelpText | sausage.py:76 | the captured help text is the program's output with white space cut from both ends only, and it neither starts nor ends with white space |
| Session.HelpTextOf | sausage.py:76 | output that is an unpadded text with only white space around it is captured as exactly that text |
| Session.Fold | sausage.py:154-167 | the loop's shape: a step per pair, in order, on the document the earlier pairs left, stopping at the first pair that does not go through; stated by `FoldSticks`, `FoldDonePrefix`, `FoldStoppedAt` and `FoldStopsAt` |
| Session.Step | sausage.py:156-167 | one pair stops the run, at its own index and with `Locate`'s reason, exactly when its tag does not resolve; otherwise the new document is the splice of the command's help text into the located block |
| Session.Run | sausage.py:154-167 | what the per-command loop computes; stated by `RunDone`, `RunAborted` and `RunTwo` |
| Session.Process | sausage.py:146-167 | the tool on a document: tag derivation, then the loop; stated by `ProcessOutcome` |
| Session.ProcessDocument | sausage.py:154-167 | the per-command loop computes `Run` |
| Session.RunStep | sausage.py:154-167 | after the first `i` pairs went through, pair `i` is applied to the document they left |
| Session.FoldStopsAt | sausage.py:154-158 | a pair that does not go through, after the earlier ones did, gives the loop's outcome |
| Session.FoldSticks | sausage.py:154-158 | once a pair has stopped the loop, later pairs change nothing |
| Session.FoldDonePrefix | sausage.py:154-167 | a loop that finishes went through every prefix of the pairs |
| Session.FoldStoppedAt | sausage.py:154-158 | a loop that stops, stopped at a pair whose predecessors all went through, with that pair's outcome |
| Session.RunAborted | sausage.py:154-158 | the run stops at pair `i`, with reason `r`, exactly when the earlier pairs went through and `i`'s tag fails to resolve with `r` in the document they left |
| Session.RunNeverBlank | sausage.py:154-167 | the loop itself never reports a blank command |
| Session.DonePrefixResolves | sausage.py:154-158 | in a run that finishes, every pair's tag resolves in the document the earlier pairs left |
| Session.RunDone | sausage.py:154-167 | the run finishes exactly when every pair's tag resolves in the document left by the pairs before it |
| Session.ProcessOutcome | sausage.py:146-167 | the tool stops before the loop exactly at the first blank command, and otherwise runs the loop over the derived pairs |
| Session.StepIdempotent | sausage.py:154-167 | applying a pair again to the document it produced changes nothing, when its help text holds its tag on one piece and has no fence piece, and the opening fence does not hold the tag |
| Session.RunIdempotent | sausage.py:154-167 | running the tool again with the same single command on its own output changes nothing, under the same conditions |
| Session.RunSingle | sausage.py:154-167 | a run of one pair is that pair's step |
| Session.RunPair | sausage.py:154-167 | a run of two pairs applies the second to the document the first left, unless the first stops the run |
| Session.FoldPair | sausage.py:154-167 | the loop over two pairs applies the second to the document the first left, unless the first stops the loop |
| Session.RunPairThrough | sausage.py:154-167 | when the first pair gives `d1` and the second tag resolves in `d1`, the run is the splice into `d1` |
| Session.RunTwo | sausage.py:154-167 | two commands whose blocks are apart, with help texts that do not hold each other's tag, give each block its own help text, and the same document in either order |
| Session.RunEarlierFirst | sausage.py:154-167 | with the earlier block's command first, both blocks get their own help text |
| Session.RunLaterFirst | sausage.py:154-167 | with the later block's command first, both blocks get their own help text, as in the other order |
| Session.SplicesApart | sausage.py:160-167 | splicing into a block and then into a later block, at the place the first splice moved it to, replaces both blocks |
| Session.SplicesSwapped | sausage.py:160-167 | splicing into the later block and then into the earlier one replaces both blocks in the same way |
| Examples.StripUnpadded | sausage.py:95 | a line that neither starts nor ends with white space is its own `strip()` |
| Examples.LowerOfLower | sausage.py:98 | a line without capitals is its own `lower()` |
| Examples.ShorterNotContained | sausage.py:98 | no string contains a longer one |
| Examples.SameLengthContained | sausage.py:98 | a string of the tag's length contains the tag only by being the tag |
| Examples.TagOfWord | sausage.py:54 | a plain command name `c` with no dot or slash gets the tag `usage: c` |
| Examples.TrailingDotName | sausage.py:54 | the name of `a/.` is `a`: a trailing `.` component is dropped |
| Examples.DeriveTwoCommands | test_sausage.py:16-21 | plain commands such as `cmd1` and `cmd2` give the pairs `(cmd1, usage: cmd1)` and `(cmd2, usage: cmd2)`, in order |
| Examples.ShortLineNotUsage | sausage.py:98 | a line shorter than the tag never holds it |
| Examples.TitleNotUsage | test_sausage.py:44 | a title line starting with `#` does not hold a tag of its own length that starts otherwise |
| Examples.MarkerIsFence | sausage.py:96 | a line that is exactly three backticks is a fence |
| Examples.TestDocFrame | test_sausage.py:43-50 | no line of the test document other than line 3 holds an eleven-character tag that does not start with `#` |
| Examples.TestDocFences | test_sausage.py:46-48 | lines 2 and 4 of the test document are fences |
| Examples.TestDocResolves | test_sausage.py:39-56 | an eleven-character usage line with no white space at either end that lowercases to the tag, where the tag starts with neither `#` nor a backtick, resolves the tag to `(2, 4)` |
| Examples.LowerCaseTagResolves | test_sausage.py:29 | `usage: cmd1` resolves to `(2, 4)` |
| Examples.LowerLineResolves | test_sausage.py:39-56 | an unpadded eleven-character line without capitals, as the test document's usage line, resolves itself as a tag to `(2, 4)` |
| Examples.CapitalisedLineResolves | test_sausage.py:30 | the line `Usage: cmd2` resolves the tag `usage: cmd2` to `(2, 4)` |
| Examples.CapitalisedResolves | sausage.py:98 | in the test document, a line of a capital `U` followed by a ten-character rest without capitals that does not end in white space resolves the tag of a small `u` followed by that rest |
| Examples.LowerCapitalised | sausage.py:98 | lowering `U` followed by a lower-case rest gives `u` and the same rest |
| Examples.CapitalisedTagNotFound | test_sausage.py:31-32 | the tags `usage: Cmd3` and `usage: Cmd4` are not found, although the test expects `(2, 4)` |
| Examples.StripTrailingNewline | sausage.py:76 | stripping the program's output drops a single trailing newline |
| Examples.SplitThree | sausage.py:167 | a help text with a blank line between two lines splits into three pieces, the middle one empty |
| Examples.RunOne | sausage.py:154-167 | a run of one resolved pair replaces the block's content with the indented pieces |
| Examples.EndToEnd | sausage.py:154-167 | the test document, with help text `usage: cmd1 [-h]`, a blank line and `options:`, becomes the document with `    usage: cmd1 [-h]`, `    ` and `    options:` between the fences |
| Examples.TwoLineHelp | sausage.py:154-167 | any two-line help text with a blank line between becomes three indented lines between the test document's fences |
| Examples.TestDocSplice | sausage.py:160-167 | splicing three pieces into the test document gives the eight expected lines |

## Left out

- Argument parsing (`get_opts`, `sausage.py:15-59`) apart from the tag derivation loop. This covers argparse, `Path.expanduser().resolve()` and `assert doc_path.exists()`, which are library and file-system calls. `get_opts` ignores its `argv` argument and reads `sys.argv`.
- Running the programs (`get_help_text`, `sausage.py:62-80`) is a subprocess call. The model takes the program's output as a function `helpOf` from command to text. It keeps only the `strip()` of that output (`Session.HelpText`).
- Reading the document and `rstrip` of each line (`sausage.py:151-152`). The model takes the document as a sequence of lines.
- `write_output` (`sausage.py:129-143`): time-stamped file naming, the existence check and the file writes depend on the clock and the file system.
- All `print` diagnostics. Each `sys.exit(1)` becomes an `Unresolved` reason, and it stops the run (`Session.Aborted`).
- PyStr.LowerChar: lowers the ASCII capitals `A`-`Z` only. Python's `str.lower()` also lowers non-ASCII letters (`É`, `Σ`, and so on), some of them into more than one character. That mapping is not modelled. A tag or a line with such letters can therefore be matched differently in the model.
- PyStr.Lower: inherits the ASCII-only mapping of `PyStr.LowerChar`. Because of it, `Lower` always keeps the length, which Python's `lower()` does not do for every non-ASCII letter.
- Tags.Stem: follows `PurePath.stem` as CPython up to 3.13 defines it. The suffix starts at the last dot only when `0 < name.rfind('.') < len(name) - 1`. CPython 3.14 changed the rule for names that end in a single dot, and that newer rule is not modelled.
- Tags.PathName: POSIX paths only. Windows path separators and drive letters are not modelled.
- Session.RunIdempotent: covers a single command. With several commands, idempotence also needs each help text to avoid the other commands' tags and fences. That case is not stated.
- Session.RunTwo: covers two commands whose blocks are apart. Longer runs of commands, and two tags that resolve to the same block, are not stated.
