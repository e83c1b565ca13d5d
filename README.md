# Guarded patch pipeline: unified-diff validation and application

This project models the two core steps of the resume-tailoring patch pipeline
in Dafny and proves what they guarantee:

- **Applying a diff** (`src/file_update.py`). `_parse_hunks` groups the diff's
  lines into hunks, each anchored at a 0-based original line read from its
  `@@ -s[,c] +t[,d] @@` header by `_parse_hunk_header`. `_apply_unified_diff`
  walks a cursor over the original lines. It copies the gap before each hunk,
  emits context and inserted lines, and checks each deleted line against the
  original. It then copies the rest and rejoins the lines, with a final newline
  when the original had one.
- **Validating a diff** (`src/validation.py`). `DiffValidator.validate` runs a
  fixed, fail-fast sequence of policy checks:
  1. the diff is not empty;
  2. unified format;
  3. header prefix, both headers naming the target file, a single file and
     an allowed extension;
  4. the guardrails: banned insertions, deletions and line length;
  5. context fidelity.

Modules:

| file | module | contents |
|---|---|---|
| `results.dfy` | `Results` | `Option` and `Result` with failure propagation |
| `text.dfy` | `Text` | the Python string operations the code relies on (`strip`, `startswith`, `in`, `splitlines`, `"\n".join`, the header token scanners), with their facts |
| `file_update.dfy` | `FileUpdate` | hunk headers, the parse loop (`ParseHunks`), the apply loops (`ApplyUnifiedDiff`) and the recursive functions that specify them |
| `patch_properties.dfy` | `PatchProperties` | what parsing and applying guarantee, and the scenarios of `tests/test_file_update.py` |
| `validation.dfy` | `Validation` | the codex policy record, the validator and its checks, and the three list-building loops as methods |
| `validation_properties.dfy` | `ValidationProperties` | a line-by-line reading of acceptance (`Accepts`), which message each rejection carries, and what the verdict depends on |

A raised `PatchApplyError` or `ValidationIssue` is an `Err` result carrying
the same message text. `_parse_hunks` raises the validator's own
`ValidationIssue`, so the applier's failure type wraps it (`Rejected`). The
loops of `_parse_hunks` and `_apply_unified_diff`, and the three list-building
loops of the validator (`_find_all_files`, `_extract_added_lines`,
`_extract_hunks`), are methods proved equal to recursive functions that carry
the loops' variables. The banned-content, line-length and context loops of the
validator only compute a verdict; they are recursive functions, proved equal to
quantified readings. The lemmas relate the functions to independent readings:
- `OldSide`/`NewSide` of a hunk;
- `Patched`, the result of a run of hunks;
- `Bodies`, the lines that become hunk bodies;
- `Accepts`, the validator's verdict read line by line.

## Model

| member | source | states |
|---|---|---|
| FileUpdate.StartToken | src/file_update.py:77-78 | the start token read from a header, when there is one, holds no `-`, comma or space |
| FileUpdate.ParseHunkHeader | src/file_update.py:74-81 | a header is accepted exactly when the text between the first two `@@` splits at a space and its first token, cut at the first comma and stripped of `-`, is a run of digits; otherwise the error is `Invalid hunk header: <header>` |
| PatchProperties.CanonicalHeaderStart | src/file_update.py:74-81 | a canonical header `@@ -s[,c] +t... @@` yields the 0-based start `max(s - 1, 0)`, whatever the count and new-file part |
| FileUpdate.ParseLines | src/file_update.py:54-72 | a successful parse returns at least one hunk; a failure is an `Invalid hunk header` error or the `No hunks found in diff` issue |
| FileUpdate.ParseFrom | src/file_update.py:58-71 | the parse loop from any state returns at least one hunk when it succeeds; a failure is an applier error or the no-hunks issue |
| FileUpdate.ParseHunks | src/file_update.py:54-72 | the loop returns exactly the parse function's result, errors included |
| PatchProperties.HeadersValidEvery | src/file_update.py:59-63 | every `@@` line is accepted exactly when each such line parses as a header |
| PatchProperties.BodiesAreBodyLines | src/file_update.py:64-67 | the collected body lines are diff lines that are neither file headers nor `@@` lines |
| PatchProperties.ParseFromSucceeds | src/file_update.py:58-71 | the loop succeeds exactly when all headers are valid and some body line exists; with valid headers and no body line it fails with `No hunks found in diff` |
| PatchProperties.ParseFromFlatten | src/file_update.py:58-69 | the hunk bodies, concatenated, are the open body plus every body line, in diff order |
| PatchProperties.ParseFromKeeps | src/file_update.py:60-69 | hunks already closed are kept unchanged in front, and no hunk has an empty body |
| PatchProperties.ParseFromFirstBadHeader | src/file_update.py:59-63 | the first `@@` line that fails to parse decides the error, whatever follows |
| PatchProperties.ParseLinesOutcome | src/file_update.py:54-72 | parse success iff valid headers and some body line; on success the bodies are exactly the body lines in order and none is empty; the two error cases and their messages |
| PatchProperties.ParsedLinesAreBodyLines | src/file_update.py:64-67 | every line of every parsed hunk is a body line taken from the diff |
| PatchProperties.BodyRun | src/file_update.py:64-67 | lines without `@@` only extend the open body, by their body lines in order; file headers among them are skipped |
| PatchProperties.SegmentStep | src/file_update.py:59-67 | a readable `@@` header closes the open body and opens a new one, anchored at the header's start, that collects the body lines up to the next `@@` |
| PatchProperties.SegmentsParse | src/file_update.py:58-71 | over `@@`-delimited segments the loop closes the open body, then yields one hunk per segment with body lines, in order, each anchored at its own header's start and holding exactly its body lines |
| PatchProperties.ParseLinesSegments | src/file_update.py:54-72 | a diff made of lines without `@@` followed by `@@`-delimited segments parses to the leading hunk at line 0, if it has body lines, then one hunk per segment as above; no hunk at all gives `No hunks found in diff` |
| PatchProperties.SegmentHunksEvery | src/file_update.py:59-69 | when every segment has body lines, the i-th segment yields the i-th hunk |
| PatchProperties.ParseLinesHunkPerHeader | src/file_update.py:54-72 | when every `@@` header is followed by body lines, the parse yields exactly one hunk per header after the leading hunk: the i-th is anchored at the i-th header's start and holds exactly that header's body lines |
| PatchProperties.SegmentsOfSplit | src/file_update.py:58-63 | lines that start at a `@@` line are exactly the concatenation of their segments, each a readable header followed by the lines up to the next `@@` |
| PatchProperties.ParseLinesBySegments | src/file_update.py:54-72 | for every diff whose headers are readable, the parse equals the segment reading of that diff's own split: the lines before the first `@@`, then one segment per `@@` line |
| PatchProperties.TwoHunkParse | src/file_update.py:54-72 | two readable headers, each followed by body lines, give exactly two hunks at their own anchors holding their own body lines |
| PatchProperties.FirstAnchor | src/file_update.py:57-69 | the first hunk keeps the anchor in force when its first body line was read |
| PatchProperties.PreludeHunkAnchoredAtZero | src/file_update.py:57 | body lines before any `@@` form a first hunk anchored at line 0 |
| PatchProperties.SkipFileHeaders | src/file_update.py:64-65 | `---`, `+++` and `diff --git` lines are skipped without effect |
| PatchProperties.HeaderlessBody | src/file_update.py:66-69 | a run without `@@` lines becomes one hunk of its body lines |
| PatchProperties.SingleHunkParse | src/file_update.py:54-72 | file headers, one valid `@@` header and a body give exactly one hunk at the header's anchor |
| PatchProperties.OneHunkOf | src/file_update.py:54-72 | the same, for a body made only of body lines, which are kept verbatim |
| FileUpdate.Slice | src/file_update.py:37 | Python's clamped slice: the sub-range when in bounds, the tail past the end, empty when the bounds cross |
| FileUpdate.ApplyLines | src/file_update.py:39-48 | one hunk's body either fails with the deletion-mismatch error or advances the cursor by at most its number of lines; `PatchProperties.ApplyLinesMeaning` gives the full result |
| FileUpdate.ApplyHunkLines | src/file_update.py:39-48 | the inner loop over one hunk's lines returns exactly the body function's result, errors included |
| FileUpdate.ApplyHunks | src/file_update.py:36-50 | a successful run leaves the cursor within the original; the only errors are the deletion-mismatch and cursor-exceeded messages |
| FileUpdate.PatchLines | src/file_update.py:33-51 | a failure is an applier error or the no-hunks issue; `PatchProperties.PatchLinesMeaning` gives the full result |
| FileUpdate.ApplyDiff | src/file_update.py:30-52 | a failure is an applier error or the no-hunks issue; an original ending in a newline gives a result ending in one; `PatchProperties.TrailingNewline` gives the exact rule |
| FileUpdate.ApplyUnifiedDiff | src/file_update.py:30-52 | the loops return exactly the apply function's result, errors included |
| PatchProperties.DeletionsMatchEvery | src/file_update.py:43-46 | a body's deletions match exactly when each deletion line equals the original line at the anchor plus the number of context and deletion lines before it |
| PatchProperties.ApplyLinesMeaning | src/file_update.py:39-48 | one hunk's body succeeds iff its deletions match; it appends the hunk's new side and advances the cursor by its old side's length; the only error is the deletion mismatch |
| PatchProperties.AllApplyEvery | src/file_update.py:36-50 | a run applies exactly when each hunk's deletions match and each hunk ends within the original |
| PatchProperties.ApplyHunksStep | src/file_update.py:36-50 | an applicable hunk appends the gap and its new side and moves the cursor to its end |
| PatchProperties.ApplyHunksStop | src/file_update.py:43-50 | an inapplicable first hunk fails with the deletion message, or with the cursor message when its deletions match |
| PatchProperties.ApplyHunksMeaning | src/file_update.py:36-50 | the hunk loop succeeds iff every hunk applies, and then outputs the reference reading `Patched` with the cursor at the last hunk's end |
| PatchProperties.ApplyHunksFirstFailure | src/file_update.py:36-50 | the first hunk that does not apply decides the error and its message |
| PatchProperties.PatchLinesMeaning | src/file_update.py:33-51 | patching succeeds iff the diff parses and every hunk applies; the result is `Patched` followed by the original from the final cursor |
| PatchProperties.UntouchedRegionsCopied | src/file_update.py:37-51 | an applicable run keeps the original lines before the first hunk and after the last hunk's end unchanged at both ends of the result |
| PatchProperties.OldSideMatchImpliesDeletionsMatch | src/file_update.py:43-46 | a hunk whose old side equals the original block at its anchor passes the deletion check |
| PatchProperties.SingleHunkReplacesBlock | src/file_update.py:36-51 | a single hunk whose old side equals the original block replaces exactly that block by its new side |
| PatchProperties.PatchedSingle | src/file_update.py:36-51 | the reference reading of one applicable hunk |
| PatchProperties.NewSideNoNewlines | src/file_update.py:41-48 | the emitted lines carry no newline when the body lines carry none |
| PatchProperties.PatchLinesNoNewlines | src/file_update.py:31-51 | the new lines of a patch contain no newline characters |
| PatchProperties.TrailingNewline | src/file_update.py:52 | an original ending in a newline gives a result ending in one; the result ends in a newline exactly when the original does or the new lines end with an empty line after at least one other |
| PatchProperties.TrailingNewlineGainedByEmptyLastLine | src/file_update.py:52 | an original without a final newline can gain one: `x` patched by `@@ -1 +1,2 @@`, ` x`, `+` gives `x\n` |
| PatchProperties.GainedNewlinePatch | src/file_update.py:36-51 | the line-level half of that example: `["x"]` becomes `["x", ""]` |
| PatchProperties.GainedNewlineDiff | src/file_update.py:32 | the example diff text splits into the header, ` x` and `+`, and its header anchors at line 0 |
| PatchProperties.OneTwoHeader | tests/test_file_update.py:11 | the header `@@ -1 +1,2 @@` of the insertion test parses to anchor 0 |
| PatchProperties.OneOneHeader | tests/test_file_update.py:21 | the header `@@ -1 +1 @@` of the deletion test parses to anchor 0 |
| PatchProperties.SplitLinesJoined | src/file_update.py:31-52 | joining lines without newlines and splitting again gives them back when the last line is not empty |
| PatchProperties.InsertWorldParse | tests/test_file_update.py:11 | the test diff's lines parse to one hunk at line 0 holding `-hello`, `+hello`, `+world` |
| PatchProperties.InsertWorldPatch | tests/test_file_update.py:8-15 | that diff turns the lines `hello` into `hello`, `world` |
| PatchProperties.ScenarioInsertWorld | tests/test_file_update.py:8-15 | `hello\n` patched by that diff becomes `hello\nworld\n` |
| PatchProperties.DeletionMismatchPatch | tests/test_file_update.py:18-24 | deleting `wrong` from the lines `hello` fails with the deletion-mismatch error |
| PatchProperties.ScenarioDeletionMismatch | tests/test_file_update.py:18-24 | `hello\n` patched by that diff fails with `Hunk deletion does not match original content` |
| PatchProperties.ContextTextIsNotCompared | src/file_update.py:40-42 | a context line is emitted from the diff text even when it differs from the original line it stands for |
| PatchProperties.ContextHunkThen | src/file_update.py:36-42 | a one-context-line hunk copies the gap, emits its text and leaves the cursor one past its anchor |
| PatchProperties.OutOfOrderHunksRepeatLines | src/file_update.py:36-38 | a hunk anchored before the previous hunk's end moves the cursor back, and no gap is copied |
| Text.TrimFacts | src/validation.py:31 | stripping leaves nothing exactly when the text is all whitespace, and otherwise leaves no whitespace at either end |
| Text.SplitLines | src/file_update.py:31-32 | the lines of a text contain no newline, and only the empty text has no lines |
| Text.JoinSplit | src/file_update.py:52 | joining the pieces of a newline split gives the text back |
| Text.SplitLinesRendered | src/file_update.py:52 | splitting lines that were joined with a final newline gives them back |
| Text.RenderEndsWithNewline | src/file_update.py:52 | the rejoined text ends in a newline exactly when a final one is appended or the last of at least two lines is empty |
| Validation.HeaderLines | src/validation.py:82 | the header list is no longer than the diff and holds only `---`/`+++` lines; `ValidationProperties.HeaderLinesMeaning` shows it holds all of them |
| Validation.ExtractHeaders | src/validation.py:81-83 | the result is the first two `---`/`+++` lines, or all of them when there are fewer |
| Validation.FilesInDiff | src/validation.py:85-92 | every captured name is non-empty; `ValidationProperties.FilesInDiffMeaning` states which names are captured |
| Validation.AddedLines | src/validation.py:94-99 | there are no more added lines than diff lines; `ValidationProperties.AddedLinesFree` states what they contain |
| Validation.ContextLines | src/validation.py:104-110 | there are no more context lines than diff lines |
| Validation.HunksFrom | src/validation.py:104-112 | the grouping loop from any state whose closed groups are non-empty closes only non-empty groups |
| Validation.ContextHunks | src/validation.py:101-113 | no context group is empty |
| ValidationProperties.HeaderLinesMeaning | src/validation.py:82 | the header list holds exactly the diff's `---`/`+++` lines |
| Validation.FindAllFiles | src/validation.py:85-92 | the loop returns exactly the set of names captured by `^[+-]{3} (.+)$` |
| ValidationProperties.FilesInDiffMeaning | src/validation.py:85-92 | a name is in that set exactly when some line is three signs, a space and that non-empty name |
| Validation.ExtractAddedLines | src/validation.py:94-99 | the loop returns exactly the addition lines without their `+`, in diff order |
| ValidationProperties.AddedLinesFree | src/validation.py:94-99 | no added line contains a string exactly when no `+` line other than a `+++` header contains it after the `+` |
| Validation.ExtractHunks | src/validation.py:101-113 | the loop returns exactly the context groups of the specification function |
| ValidationProperties.ContextHunksCoverContextLines | src/validation.py:101-113 | the groups hold exactly the context lines in diff order, each without its space, and none is empty |
| ValidationProperties.HunksFromContext | src/validation.py:104-112 | the grouping loop from any state loses, adds and reorders no context line |
| Validation.FirstBanned | src/validation.py:56-59 | nothing is found exactly when no banned string occurs in an added line; otherwise the result is the first banned string, in list order, that occurs |
| ValidationProperties.NoBannedMeaning | src/validation.py:56-59 | the banned-content loop passes exactly when no added line contains any banned string |
| Validation.AnyContainsMeaning | src/validation.py:58 | the `any` over added lines is the existential it reads as |
| Validation.AnyDeletionMeaning | src/validation.py:61 | the deletion test holds exactly when some line starts with `-` but not `---` |
| Validation.AnyTooLongMeaning | src/validation.py:68-70 | the length test fails exactly when some `+` line is longer than the maximum after its `+` |
| Validation.AnyEndsWithMeaning | src/validation.py:52 | the extension test holds exactly when the path ends with one of the allowed extensions |
| ValidationProperties.ContextLinesKnown | src/validation.py:74-79 | every context text is an original line exactly when every line starting with a space is one once the space is dropped |
| Validation.DiffValidator.Validate | src/validation.py:23-28 | a rejection carries one of the validator's messages, or the banned-content message; `ValidationProperties.ValidateAccepts` states exactly when it accepts |
| Validation.DiffValidator.EnsureDiffNotEmpty | src/validation.py:30-32 | passes exactly when the diff is not all whitespace; the error is `Empty diff returned by LLM` |
| Validation.DiffValidator.EnsureUnifiedDiff | src/validation.py:34-36 | a diff containing `@@` passes; the only error is the not-unified message |
| Validation.DiffValidator.ValidateTargetFile | src/validation.py:38-53 | a rejection carries one of the five target-file messages; a pass means two headers that both contain the path, one file unless several are allowed, and an allowed extension |
| Validation.DiffValidator.ValidateGuardrails | src/validation.py:55-63 | a rejection is the deletion message, the length message, or the banned-content message naming the first banned string found in an added line |
| Validation.DiffValidator.ValidateLineLengths | src/validation.py:65-70 | passes exactly when the maximum is not positive or every `+` line fits it once the `+` is dropped; the error is the length message |
| Validation.DiffValidator.ValidateContext | src/validation.py:72-79 | the result is a pass or the context-mismatch error, and a pass when the minimum is not positive; `ValidationProperties.ContextMeaning` states exactly when it passes |
| Validation.DiffValidator.CheckHunks | src/validation.py:74-79 | the same, over a list of context groups |
| Validation.DiffValidator.CheckContext | src/validation.py:75-79 | the same, over one group, and a pass when every context line is an original line |
| ValidationProperties.NotEmptyMeaning | src/validation.py:30-32 | the emptiness check passes exactly when the diff is not all whitespace |
| ValidationProperties.TargetFileMeaning | src/validation.py:38-53 | the target-file check passes exactly when the line-by-line conditions hold: prefix, two headers that both contain the path, one file unless several are allowed, an allowed extension |
| ValidationProperties.GuardrailsMeaning | src/validation.py:55-70 | the guardrails pass exactly when no added line holds banned text, no deletion appears when deletions are forbidden, and no `+` line is too long when a positive maximum is set |
| ValidationProperties.CheckContextMeaning | src/validation.py:75-79 | one group passes unless the minimum is positive and a context line is missing from the original; the error is the context mismatch |
| ValidationProperties.CheckHunksMeaning | src/validation.py:74-79 | the same over all groups |
| ValidationProperties.ContextMeaning | src/validation.py:72-79 | the context check passes exactly when the minimum is not positive or every context line of the diff is a line of the original; otherwise it fails with the mismatch message |
| ValidationProperties.ValidateAccepts | src/validation.py:23-79 | the validator accepts a diff exactly when `Accepts` holds: not blank, `@@` when required, the target-file conditions, the guardrails and the context condition |
| ValidationProperties.EmptyDiffRejectedFirst | src/validation.py:23-32 | a blank diff is rejected as empty under every policy |
| ValidationProperties.UnifiedFormatCheckedSecond | src/validation.py:24-36 | a non-blank diff without `@@` is rejected as not unified when the policy requires it |
| ValidationProperties.PrefixCheckedThird | src/validation.py:38-41 | past those two checks, a diff not starting with `---` after leading whitespace is rejected for its prefix when the policy enforces it |
| ValidationProperties.HeadersRequired | src/validation.py:42-44 | past the prefix, fewer than two header lines is rejected for missing headers |
| ValidationProperties.PathInBothHeaders | src/validation.py:45-47 | past the header count, a first or second header without the target path is rejected for the path |
| ValidationProperties.FileCountEnforced | src/validation.py:48-51 | when several files are not allowed, a diff naming no file or two distinct names is rejected |
| ValidationProperties.NoExtensionsRejectsAll | src/validation.py:52-53 | an empty list of allowed extensions rejects every diff |
| ValidationProperties.FirstBannedNamed | src/validation.py:56-59 | the banned-content rejection names the first banned string, in list order, that occurs in an added line |
| ValidationProperties.DeletionRejected | src/validation.py:60-62 | past the banned content, a deletion line is rejected when deletions are forbidden |
| ValidationProperties.LongLineRejected | src/validation.py:63-70 | past the deletion check, a `+` line longer than a positive maximum is rejected, `+++` headers included |
| ValidationProperties.MultipleFilesRejected | src/validation.py:48-51 | past the path check, when several files are not allowed, a diff naming no file or two distinct names is rejected with the multiple-files message |
| ValidationProperties.ExtensionRejectedLast | src/validation.py:52-53 | past the file count, a target path ending with none of the allowed extensions is rejected with the extension message |
| ValidationProperties.ContextMismatchRejected | src/validation.py:72-79 | once every earlier check passes and the minimum is positive, a context line whose text is not an original line is rejected with the context-mismatch message |
| ValidationProperties.ContextSkippedWhenNotPositive | src/validation.py:76-77 | a minimum that is not positive turns the context check off |
| ValidationProperties.ContextIsMembership | src/validation.py:73-79 | the original content matters only through the set of its lines: the same lines in any order or number give the same verdict and message |

Behaviour of the code that differs from what one might expect, each stated by
a member above:

- The newline rule holds in one direction only. One would expect the result
  to end with a newline exactly when the original does. The code appends a final
  newline exactly when the original has one. But joining new lines whose last
  line is empty also ends the text with a newline. So an original without a
  final newline can gain one (`TrailingNewlineGainedByEmptyLastLine`). The
  model follows the code, and `TrailingNewline` gives the exact rule.
- Context lines are emitted from the diff text and never compared with the
  original while applying (`ContextTextIsNotCompared`). Only the validator's
  membership test guards them, and only when `minimum_context_lines` is
  positive. It is used as an on/off switch, not as a count.
- Hunks are applied in the order given. A hunk anchored before the previous
  hunk's end moves the cursor back, so later original lines can be emitted
  twice (`OutOfOrderHunksRepeatLines`).
- The line-length guard also measures `+++` header lines (`LongLineRejected`).
- The diff in `tests/test_validation.py:47` names `data.txt`. The validator
  compares it against the full path of the temporary file. So that diff is
  rejected by the path check (`PathInBothHeaders`) before the banned-content
  check is reached.

## Left out

- `FileUpdateEngine.apply_patch`, `_create_backup` and the constructor write files, read the clock and create directories. They are I/O and are not modelled. `_apply_unified_diff` is modelled on text in and text out.
- The orchestrator, the codex loader, the LLM client, the prompt builder, the CLI and audit logging are not part of this model. `CodexConfig` is taken as an already-loaded record.
- `DiffValidator` receives a `UserRequest`. It is modelled with the target path already rendered as text, because the validator uses only `str(request.file_path)`. `Path` normalisation is not modelled.
- Text.SplitLines: Python's `splitlines` also breaks at `\r`, `\r\n`, `\v`, `\f`, `\x1c`–`\x1e`, `\x85`, `\u2028` and `\u2029`. The model breaks at `\n` only.
- Text.Trim: `strip`/`lstrip` remove Unicode whitespace. The model removes the six ASCII whitespace characters only.
- FileUpdate.ParseHunkHeader: the model accepts only ASCII digits. Python's `int()` also accepts a leading `+`, `_` between digits, surrounding whitespace and non-ASCII decimal digits.
- The chained cause of `Invalid hunk header` (`raise ... from exc`) is not modelled. Neither is `ValidationIssue.__str__`.
- Validation.FindAllFiles: `_find_all_files` returns the names as a list in arbitrary order. It is modelled as a set, since only its size is used.
- PatchProperties.ScenarioInsertWorld, PatchProperties.ScenarioDeletionMismatch: stated for any diff text whose lines are the test's lines, not for the literal texts of `tests/test_file_update.py`. Splitting those six- and five-line literals runs the verifier out of resource, even when the text is built up one line at a time. The header requirement of each is discharged for the test's own header by PatchProperties.OneTwoHeader and PatchProperties.OneOneHeader. Only the short diff of PatchProperties.GainedNewlineDiff is split from its literal text.
