# Version extraction from an ITGmania binary, modelled in Dafny

The repository ships one script, `extract-version-from-binary.py`. It runs an
ITGmania binary with `--version`, parses what the binary prints into a triple
(version number, git hash, compile date) and prints one line chosen by a mode
token. This project models the two pieces of that script that are logic rather
than process glue, as pure functions with proved properties:

- `parse_version_info`: strip the output, split it on `'\n'`, require two
  lines, then run three fixed regular-expression searches. It fails with the
  first error that applies: format, version, hash, then date.
- the mode selection in `main`, which picks the line to print from the parsed
  triple. It is modelled together with the step that reports a parse error.

## Layout

- `strings.dfy` (module `Strings`): Python's `str.strip()`, `str.split(sep)`
  and `sep.join(parts)`. Each has a declarative partner (`IsStripOf`, the
  `Split`/`Join` round trips).
- `patterns.dfy` (module `Patterns`): the three patterns
  `ITGmania([0-9]+\.[0-9]+\.[0-9]+)`, `-git-([a-f0-9]+)` and
  `Compiled ([0-9]{8})`.
  - `MatchesAt` says declaratively what a match at one position is.
  - `MatchAt` is the greedy attempt at one position, proved equal to
    `MatchesAt` in both directions.
  - `Search` is `re.search`: it returns the leftmost match, and none exactly
    when the pattern occurs nowhere.
- `parser.dfy` (module `VersionParser`): `ParseVersionInfo` and what it
  promises: the error precedence, success exactly when the three leftmost
  extractions exist, and that every output of the shape shown in the code's comments parses
  to its own three fields.
- `output.dfy` (module `OutputMode`): the mode tokens, `MajorMinor`,
  `SelectOutput`, `Run` (parse, then select), and the standard-error message.
- `scenarios.dfy` (module `Scenarios`): the example output from the code's comments and the
  edge cases of the patterns, proved as concrete lemmas.

How the Python regular expressions are read:
- A `[0-9]+` followed by `\.` can only match a maximal digit run.
- The final `[0-9]+` and the hash's `[a-f0-9]+` are greedy, so the character
  after them is not in their class.
- `[0-9]{8}` takes exactly eight digits, whatever follows.
- `re.search` returns the leftmost match.

## Model

| member | source | states |
|---|---|---|
| `Strings.TrimStart` | extract-version-from-binary.py:40 | the result is a suffix of the input, everything dropped is whitespace, and the result does not start with whitespace |
| `Strings.TrimEnd` | extract-version-from-binary.py:40 | the result is a prefix of the input, everything dropped is whitespace, and the result does not end with whitespace |
| `Strings.Strip` | extract-version-from-binary.py:40 | `strip()` removes a whitespace prefix and a whitespace suffix, and leaves neither end on whitespace |
| `Strings.StripUnique` | extract-version-from-binary.py:40 | only one string satisfies that description, so it determines `strip()` completely |
| `Strings.StripPadded` | extract-version-from-binary.py:40 | text without edge whitespace, padded with any whitespace, strips back to itself |
| `Strings.StripAllSpace` | extract-version-from-binary.py:40 | empty or all-whitespace output strips to the empty string |
| `Strings.Split` | extract-version-from-binary.py:40 | `split(sep)` gives at least one piece and no piece contains the separator |
| `Strings.JoinSplit` | extract-version-from-binary.py:106 | joining the pieces of a split with the same separator gives the original string |
| `Strings.SplitJoin` | extract-version-from-binary.py:106 | splitting a join of separator-free pieces gives those pieces back |
| `Strings.Join` | extract-version-from-binary.py:106 | the joined string starts with the first piece, followed by the separator when there are more pieces |
| `Strings.JoinPrefix` | extract-version-from-binary.py:106 | joining the first k pieces gives a prefix of joining all of them |
| `Strings.JoinPrefixStrict` | extract-version-from-binary.py:106 | joining fewer pieces than there are gives a strictly shorter string |
| `Patterns.Literal` | extract-version-from-binary.py:46-60 | each pattern starts with a literal of at least five characters (`ITGmania`, `-git-`, `Compiled `) |
| `Patterns.RunLength` | extract-version-from-binary.py:46-53 | the greedy `+` scan: every class character within the run, and the run cannot be extended |
| `Patterns.RunLengthUnique` | extract-version-from-binary.py:46-53 | a run that cannot be extended has exactly the length the scan finds |
| `Patterns.TripletParts` | extract-version-from-binary.py:46 | three digit runs joined by dots split back into exactly those three runs |
| `Patterns.TripletJoin` | extract-version-from-binary.py:46 | a version triplet is its three parts with a dot between each |
| `Patterns.TripletChars` | extract-version-from-binary.py:46 | a version triplet contains only digits and dots |
| `Patterns.TripletLayout` | extract-version-from-binary.py:46 | a version triplet is, position by position, a digit run, a dot, a digit run, a dot and a digit run, with the lengths of its three parts |
| `Patterns.ShapeIsTriplet` | extract-version-from-binary.py:46 | conversely, a string of that shape over its whole length is a version triplet |
| `Patterns.VersionGroupAt` | extract-version-from-binary.py:46-47 | the greedy version scan's capture, when there is one, occurs where the scan started and is at least five characters long |
| `Patterns.MatchAt` | extract-version-from-binary.py:46-61 | the engine's attempt at one position: when it captures, the pattern's literal is at that position and the capture right after it |
| `Patterns.MatchAtCorrect` | extract-version-from-binary.py:46-60 | the attempt at one position captures g exactly when the pattern declaratively matches there with group g (both directions) |
| `Patterns.GroupShape` | extract-version-from-binary.py:46-47 | what the greedy version scan captures has the triplet shape and is not followed by a digit |
| `Patterns.VersionGroupOfDigits` | extract-version-from-binary.py:46-47 | three digit runs separated by dots and not followed by a digit are exactly what the greedy version scan captures |
| `Patterns.HashMatchIn` | extract-version-from-binary.py:53-54 | `-git-` followed by a lowercase-hex run that nothing extends is a hash match capturing that run, wherever it stands |
| `Patterns.DateMatchIn` | extract-version-from-binary.py:60-61 | `Compiled ` followed by eight digits is a date match capturing them, whatever follows |
| `Patterns.SearchFrom` | extract-version-from-binary.py:47 | scanning from i finds a match with no match in between, or reports none only when no position from i on matches |
| `Patterns.Search` | extract-version-from-binary.py:47-61 | `re.search` returns the leftmost match, and returns nothing exactly when the pattern occurs nowhere |
| `Patterns.LeftmostUnique` | extract-version-from-binary.py:47-61 | there is only one leftmost match, with one group |
| `Patterns.NoMatchBefore` | extract-version-from-binary.py:47-61 | no match starts before the first occurrence of the pattern literal's first character |
| `Patterns.HashStartsHex` | extract-version-from-binary.py:53 | a hash match needs a lowercase-hex character right after `-git-` |
| `VersionParser.Lines` | extract-version-from-binary.py:40 | `strip().split('\n')` gives at least one line and no line contains a newline |
| `VersionParser.ParseVersionInfo` | extract-version-from-binary.py:38-66 | a format error, carrying the raw output, exactly when the stripped text has fewer than two lines; version and hash errors quote line 1, a date error quotes line 2; on success each field is the leftmost extraction of its pattern from its line |
| `VersionParser.ParseLines` | extract-version-from-binary.py:45-66 | the three searches never raise the format error, quote the line that failed, and on success return the three leftmost extractions |
| `VersionParser.ErrorPrecedence` | extract-version-from-binary.py:42-64 | the checks fail in the order line count, version, hash, date; the reported error is the first that fails, and success means none failed |
| `VersionParser.SearchExtracts` | extract-version-from-binary.py:47-64 | `re.search(...).group(1)` is g exactly when g is the group of the leftmost match |
| `VersionParser.ParseSuccessIff` | extract-version-from-binary.py:45-66 | the parse returns (v, h, d) exactly when there are two lines and v, h and d are the leftmost extractions; success always carries all three fields |
| `VersionParser.ParseLinesIff` | extract-version-from-binary.py:45-66 | the three searches return (v, h, d) exactly when v, h and d are the three leftmost extractions |
| `VersionParser.ParsedFields` | extract-version-from-binary.py:46-64 | on success: the version is three digit runs joined by dots and `ITGmania`+version occurs in line 1; the hash is a non-empty lowercase-hex run and `-git-`+hash occurs in line 1; the date is eight digits and `Compiled `+date occurs in line 2 |
| `VersionParser.ExtractedField` | extract-version-from-binary.py:46-64 | an extracted group has its pattern's form (triplet, hex run, eight digits) and follows the pattern's literal in the searched line |
| `VersionParser.LiteralThenGroup` | extract-version-from-binary.py:46-60 | a literal followed by a group at the next position is the two together at the first |
| `VersionParser.OnlyFirstTwoLinesMatter` | extract-version-from-binary.py:40-61 | outputs whose stripped text splits into the same first two lines parse to the same result, whatever lines follow |
| `VersionParser.TwoLines` | extract-version-from-binary.py:40 | two lines joined by a newline, with any surrounding whitespace, split into exactly those lines, so a `\r` before the newline stays in line 1 |
| `VersionParser.BlankOutputIsFormatError` | extract-version-from-binary.py:40-43 | empty or whitespace-only output gives the single line `''` and is a format error |
| `VersionParser.DocumentedShapeParses` | extract-version-from-binary.py:38-66 | any output of the shape the comments at lines 45 and 59 show, `ITGmania<version>-git-<hash>` then `Compiled <date>...`, with any surrounding whitespace, parses to exactly that version, hash and date |
| `VersionParser.FirstLineFields` | extract-version-from-binary.py:45-57 | a first line `ITGmania<version>-git-<hash>...` holds no newline and yields that version and that hash |
| `VersionParser.FirstLineVersion` | extract-version-from-binary.py:45-50 | a version triplet right after a leading `ITGmania`, not followed by a digit, is the version extracted |
| `VersionParser.FirstLineHash` | extract-version-from-binary.py:52-57 | with no dash before it, the first `-git-` followed by a hex run gives the hash extracted |
| `VersionParser.SecondLineDate` | extract-version-from-binary.py:59-64 | a second line `Compiled <eight digits>...` holds no newline and yields that date |
| `VersionParser.NoDashNoHash` | extract-version-from-binary.py:53-56 | a line without a dash has no hash match |
| `VersionParser.NoGitIsHashError` | extract-version-from-binary.py:45-57 | a first line with a version and no dash after it is a hash error that quotes that first line |
| `OutputMode.MajorMinor` | extract-version-from-binary.py:104-106 | `'.'.join(v.split('.')[:2])` is a prefix of the version, and its components are the first two of the version (all of them when there are fewer) |
| `OutputMode.MajorMinorStrict` | extract-version-from-binary.py:104-106 | for a version of three or more components the major-minor form is strictly shorter |
| `OutputMode.SelectOutput` | extract-version-from-binary.py:104-120 | each mode prints its fields (major-minor; hash; date; version and hash; version, hash and date; any other token the version) joined by single spaces |
| `OutputMode.SelectOutputFields` | extract-version-from-binary.py:104-120 | for space-free fields, splitting the printed line on spaces gives the mode's fields back |
| `OutputMode.UnknownModeIsDefault` | extract-version-from-binary.py:118-120 | any token other than the five recognised ones prints the same as the default `full`: the version |
| `OutputMode.ParsedInfoSpaceFree` | extract-version-from-binary.py:46-64 | no field of a parsed triple contains a space, so the space-separated outputs can be split back apart |
| `OutputMode.Run` | extract-version-from-binary.py:100-124 | a line is printed exactly when the stripped output has two lines and all three patterns are found in their lines; the printed line splits on spaces into the mode's fields of the parsed triple; otherwise the script fails with the parse error, whatever the mode |
| `OutputMode.RunPrintsExtractions` | extract-version-from-binary.py:100-120 | when the two lines yield the leftmost extractions v, h and d, the script prints one line whose space-separated fields are the mode's selection of exactly v, h and d |
| `OutputMode.ErrorMessage` | extract-version-from-binary.py:122-123 | the standard-error line starts with `Error: ` and ends with the text the error quotes |
| `OutputMode.MessageNamesCheck` | extract-version-from-binary.py:43-63 | the message's sentence names the failed check: `Unexpected…` for the format check, `Could not parse version/hash/date…` for the three searches |
| `OutputMode.ErrorMessageInjective` | extract-version-from-binary.py:43-63 | distinct parse errors give distinct standard-error messages |
| `Scenarios.SampleLines` | extract-version-from-binary.py:40 | the two-line example output from the comments at lines 45 and 59 splits into its two lines |
| `Scenarios.VersionOneZeroTwo` | extract-version-from-binary.py:46 | `1.0.2` is a version triplet with parts `1`, `0`, `2` |
| `Scenarios.SampleFieldForms` | extract-version-from-binary.py:46-60 | the sample's fields `1.0.2`, `427484d100` and `20250624` have the forms the three groups capture |
| `Scenarios.SampleParses` | extract-version-from-binary.py:38-66 | `ITGmania1.0.2-git-427484d100\nCompiled 20250624 @ 00:32:41` parses to (`1.0.2`, `427484d100`, `20250624`) |
| `Scenarios.CrLfSampleParses` | extract-version-from-binary.py:38-66 | with `\r\n` line endings the first line keeps its `\r`, which ends the hash run, and the sample parses to the same triple |
| `Scenarios.SampleRun` | extract-version-from-binary.py:100-120 | on the sample every mode prints its selection from the parsed triple |
| `Scenarios.SampleMajorMinor` | extract-version-from-binary.py:105-106 | `1.0` from `1.0.2` |
| `Scenarios.SampleMajorMinorOutput` | extract-version-from-binary.py:104-107 | `--major-minor-only` on the sample prints `1.0` |
| `Scenarios.SampleOutputs` | extract-version-from-binary.py:108-120 | on the sample, `full` and unknown tokens print `1.0.2`, `--hash-only` prints `427484d100`, `--date-only` prints `20250624`, `--version-hash` prints `1.0.2 427484d100`, `--version-hash-date` prints `1.0.2 427484d100 20250624` |
| `Scenarios.FourComponents` | extract-version-from-binary.py:46 | `ITGmania1.0.2.5` yields the version `1.0.2` |
| `Scenarios.UpperCaseEndsHash` | extract-version-from-binary.py:53 | upper-case hex ends the hash run: `-git-4Ab` yields `4` |
| `Scenarios.UpperCaseHashFails` | extract-version-from-binary.py:53-56 | upper-case hex right after `-git-` leaves the hash pattern unmatched |
| `Scenarios.NineDigitDate` | extract-version-from-binary.py:60 | `Compiled 202506241` yields the first eight digits `20250624` |
| `Scenarios.MissingGitIsHashError` | extract-version-from-binary.py:53-56 | a first line without `-git-` is a hash error that quotes that line |

## Left out

- `get_version_output` (lines 14-35) is left out. It spawns the binary and maps its exit code, empty stdout and OS exceptions to errors. That is process I/O, so the binary's standard output is a parameter of `Run` and `ParseVersionInfo`.
- The existence and permission checks (lines 88-94) are left out: they query the file system.
- `argparse`, printing and `sys.exit` (lines 70-85, 107-127) are left out as process glue. `Run` returns the line to print, or the error, in place of printing. `ErrorMessage` gives the standard-error text, but exit codes are not modelled.
- `Run` takes the mode token as given. As `argparse` reads lines 81-82, a token starting with `--` (all five recognised ones) is an unknown option rather than the positional `mode`, so a command line such as the one at line 76 is rejected as having unrecognised arguments; such a token reaches `args.mode` only after a `--` separator. That argument parsing is not modelled.
- The catch-all `except Exception` (lines 125-127) is left out: nothing in the modelled code raises anything other than the four parse errors.
- Strings.IsSpace: `str.strip()` is modelled over ASCII whitespace only: space, `\t`, `\n`, `\r`, vertical tab and form feed. Python also strips `\x1c`-`\x1f`, `\x85`, `\xa0` and other Unicode spaces. The model keeps those characters, so for output that starts or ends with them it can split into different lines than Python.
- Python's general regular-expression engine is not modelled. Only the three fixed patterns are, each by a hand-written matcher proved against a declarative description.
- Strings are sequences of Unicode scalar values. Python's decoding of the child's stdout into `str` is not modelled. With `text=True` (line 20) that decoding also turns `\r\n` and `\r` into `\n`, so the script never hands `parse_version_info` a `\r`; `CrLfSampleParses` states what the function does with such input when called directly.

## Notes on the code

- `--major-minor-only` prints the first two components of whatever `split('.')` returns (lines 105-106), so for a version without a dot it prints the whole version. `MajorMinor` models exactly that. Every version the parser produces has three components, so for a parsed version it always prints two.
- The format error quotes the unstripped output, as the code does at line 43. The version and hash errors quote line 1 and the date error quotes line 2, both after the strip and split.
