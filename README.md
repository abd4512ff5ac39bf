# keyboard patch engine of vibe-cokit/cli, in Dafny

`vk keyboard` repairs one known defect in the minified `cli.js` of the
Claude Code npm package: Vietnamese input methods send a DEL character
(U+007F) to erase the previous letter, and the bundled input handler
mishandles it. The engine in `src/utils/keyboard.ts` works in four steps.

1. It finds the `if(` block around the first `.includes("<DEL>")`
   (`findBugBlock`).
2. It recovers the obfuscated names that block uses (`extractVariables`).
3. It builds a replacement block headed by the marker
   `/* Vietnamese IME fix */` (`generateFix`).
4. It splices the replacement in with backup, write, re-read and rollback
   (`patchCliJs`).

The same file reports whether the current `cli.js` is patched or still
buggy (`isPatched`, `checkKeyboardStatus`). It also restores the newest
backup (`restoreCliJs`). `src/utils/helpers.ts` adds the small helpers:
`plural`, `printSummary`, `maxKeyLength` and `validateTargets`.

The model has one module per part:

- `Text` (text.dfy): the string primitives the code relies on, namely
  `includes`, `indexOf`, `lastIndexOf`, `startsWith` and the `[\w$]`
  character classes.
- `Patterns` (pattern.dfy): a matcher for the three fixed regular
  expressions of `extractVariables`. Each pattern is a list of tokens: a
  literal, a greedy name run, or one character of a set. Every greedy run
  is followed by a character outside its class, so the only possible match
  is the one the greedy regex engine finds. `Patterns.FirstMatch` returns
  the match at the leftmost position.
- `Scanner` / `ScannerProperties` (scanner.dfy): `findBugBlock`. It is a
  specification function (`BugBlockOf`) plus the imperative brace-counting
  loop (`FindBugBlock`), which is proved equal to it.
- `Extractor` (extractor.dfy): `extractVariables`. This covers the DEL
  normalisation, the three matches chained through the escaped `state`
  name, and the regex escaping of line 148.
- `Synthesizer` (synthesizer.dfy): `generateFix`.
- `Paths` (paths.dfy): `dirname`, `basename` and `join` for the POSIX
  paths `restoreCliJs` builds.
- `Patcher` (patcher.dfy): the disk as a map from path to content plus a
  map from path to modification time. It holds functions giving the
  outcome of `patchCliJs` and `restoreCliJs`. The class `FileStore` runs
  the same steps imperatively (copy, write, re-read, rollback; the
  filter, stat and newest-backup loops) and is proved to end in the state
  those functions give.
- `PatcherProperties` (patcher_properties.dfy): the all-or-nothing
  guarantee, idempotence, status after a patch, and patch-then-restore.
- `Helpers` (helpers.dfy): the helpers of `src/utils/helpers.ts`.

Outside inputs are parameters:

- the ISO time string and the modification time a write stamps;
- the directory listing `readdir` returns;
- the faults the file system raises inside the `try` of `patchCliJs`:
  what `Bun.write` leaves behind, whether the re-read after it throws, and
  whether the rollback copy or delete throws.

Messages are tags (`FileMissing`, `AlreadyPatched`, `PatchApplied`,
`Failed(error)`) instead of the Vietnamese strings.

In three places the code does something a reader might not expect; the
model follows the code:

- `findBugBlock` gives up on the first occurrence of the signature when no
  `if(` lies within 150 characters or the braces do not balance. It does
  not move on to a later occurrence.
- The block it returns need not contain the signature. When the window
  holds no brace at all, the block ends where the signature starts
  (`ScannerProperties.BlockWithoutBraces`).
- A scan or extraction failure does touch the disk: the backup is copied
  before the scan, then deleted by the rollback.

## Model

| member | source | states |
|---|---|---|
| Scanner.BugBlockOf | src/utils/keyboard.ts:93-133 | On success `0 <= start < end <=` the content's length, `end - start <= 800` and `block` is `content[start..end)`; it fails with "pattern missing" exactly when the text lacks `.includes("<DEL>")` |
| Scanner.FindBugBlock | src/utils/keyboard.ts:104-132 | The brace-counting loop over the 800-character window returns exactly the block, or the error, that `BugBlockOf` specifies |
| Scanner.BalanceBraces | src/utils/keyboard.ts:110-122 | The forward loop stops at exactly the first `}` that returns the depth to 0, and otherwise reports the depth of the whole window |
| Scanner.FirstCloseFrom | src/utils/keyboard.ts:113-121 | Finds the first position from `i` at which the running depth returns to 0 after a `}`; none before it; `None` only when no such position exists |
| Scanner.WindowAt | src/utils/keyboard.ts:112 | The window is the at most 800 characters of the content from the block start |
| Scanner.BlockAt | src/utils/keyboard.ts:110-132 | From a given `if(` start, a block stays inside the content and the window, equals the slice it spans, and the only failure is unbalanced braces |
| ScannerProperties.BugBlockStart | src/utils/keyboard.ts:94-108 | For the first occurrence `idx`, a found block starts at an `if(` strictly before `idx`, at most 150 back, with no later `if(` up to `idx`; "no enclosing if" happens exactly when no `if(` begins in `[max(0, idx-150), idx]` |
| ScannerProperties.BugBlockEnd | src/utils/keyboard.ts:110-126 | The block ends one past the first `}` that brings the depth to 0; if none does but the depth ends at 0 it ends at `idx`; otherwise the scan fails with unbalanced braces |
| ScannerProperties.BlockWithoutBraces | src/utils/keyboard.ts:110-132 | `if(x.includes("<DEL>")` yields the block `if(x`, which does not contain the signature |
| ScannerProperties.NoBraceDepth | src/utils/keyboard.ts:113-121 | A window with no braces keeps depth 0 throughout |
| Patterns.MatchAtComplete | src/utils/keyboard.ts:139-141 | For a deterministic pattern, any split of the text at position `i` into pieces that fit the tokens is exactly what the matcher returns at `i` |
| Patterns.FirstMatch | src/utils/keyboard.ts:139-141 | Returns the pieces of the leftmost match; returns nothing exactly when no position of the text matches the pattern |
| Patterns.FirstUnique | src/utils/keyboard.ts:139-141 | The leftmost match is unique |
| Patterns.MatchPos | src/utils/keyboard.ts:139-141 | The position found is the first from `k` where the pattern matches |
| Extractor.Normalize | src/utils/keyboard.ts:136 | After `replaceAll(DEL, "\\x7f")` no DEL remains, and text with no DEL is unchanged |
| Extractor.NormalizeAppend | src/utils/keyboard.ts:136 | The replacement of a concatenation is the concatenation of the replacements |
| Extractor.NormalizeChar | src/utils/keyboard.ts:136 | A DEL becomes the four characters `\x7f`; any other character is kept |
| Extractor.NormalizeLength | src/utils/keyboard.ts:136 | The text grows by exactly three characters per DEL |
| Extractor.PatternsDeterministic | src/utils/keyboard.ts:139-155 | The declaration, update-call and input patterns are deterministic, whatever the state name |
| Extractor.RegexEscape | src/utils/keyboard.ts:148 | Read back as a regex of literals (a backslash standing for the character after it), the escaped name spells the name itself |
| Extractor.EscapeRoundTrip | src/utils/keyboard.ts:148-150 | The escaped state name holds no regex operator: every special character is escaped and every backslash escapes a special character, so no class such as `\d` arises |
| Extractor.EscapeIdentifier | src/utils/keyboard.ts:148 | Escaping leaves a name of `[\w$]` characters without `$` unchanged |
| Extractor.ExtractVariables | src/utils/keyboard.ts:135-165 | On success all five names are non-empty `[\w$]` names, resolved by the chain: `state`/`curState` from the first declaration in the normalised block, the update callees from the first `F(state.text);G(state.offset)`, and `input` before the first `.includes("`. Each role-specific error occurs exactly when its match fails after the earlier ones succeeded |
| Extractor.ExtractComplete | src/utils/keyboard.ts:135-165 | Any names that resolve by the chain are exactly what extraction returns |
| Extractor.ResolvesUnique | src/utils/keyboard.ts:135-165 | At most one set of names resolves for a block |
| Extractor.DeclUnique | src/utils/keyboard.ts:139-145 | The first declaration determines `state` and `curState` uniquely |
| Synthesizer.GenerateFix | src/utils/keyboard.ts:167-183 | The fix starts with the marker and `if(<input>.includes("\x7f")){`, ends with `}return;}`, and in between holds, in this order and back to back, the DEL-count replay (which starts from the copy `state=curState;`) and the guard that the rebuilt state differs and the calls of both update functions on `state`; it holds no DEL when the names are well formed |
| Synthesizer.PartsNoDel | src/utils/keyboard.ts:170-181 | Every part of the template is DEL-free for well-formed names |
| Text.IndexOf | src/utils/keyboard.ts:95 | The first position where the pattern occurs, with no occurrence before it; -1 exactly when the text does not contain the pattern |
| Text.LastIndexOf | src/utils/keyboard.ts:105 | The last position at or before `from` where the pattern occurs, with no occurrence between it and `from`; -1 when there is none |
| Paths.LastSlash | src/utils/keyboard.ts:234-235 | The position of the last `/`, or -1 when there is none |
| Paths.Basename | src/utils/keyboard.ts:235 | The base name contains no `/` |
| Paths.Dirname | src/utils/keyboard.ts:234 | A bare name has directory `.`; the directory of an absolute path is absolute |
| Paths.DirnameJoin | src/utils/keyboard.ts:234-240 | Unless the directory is `.` or `/`, joining the directory and the base name gives back the path |
| Paths.Join | src/utils/keyboard.ts:240 | Joining a slash-free name to a directory gives a path whose base name is that name |
| Paths.ExtendName | src/utils/keyboard.ts:234-240 | Appending a slash-free suffix such as `.backup-<stamp>` keeps the directory, extends the base name, and joining them gives back the extended path |
| Patcher.Put | src/utils/keyboard.ts:200 | Writing a file keeps the disk consistent: every file has a modification time |
| Patcher.Remove | src/utils/keyboard.ts:223 | Deleting a file keeps the disk consistent |
| Patcher.Stamp | src/utils/keyboard.ts:198 | The stamp has the first 19 characters of the ISO time with `:` and `.` turned into `-`, so none remain |
| Patcher.Dashed | src/utils/keyboard.ts:198 | Each `:` or `.` becomes `-`; other characters stay |
| Patcher.BackupPath | src/utils/keyboard.ts:199 | The backup path starts with `<filePath>.backup-` and differs from the file |
| Patcher.PatchedContent | src/utils/keyboard.ts:203-207 | A scan or extraction error is passed on; otherwise the new text is the content with `[start, end)` replaced by the fix, and it holds the marker |
| Patcher.Splice | src/utils/keyboard.ts:207 | The spliced text keeps `content[..start]`, has the fix at `start` and `content[end..]` after it; the length adds up |
| Patcher.PatchStep | src/utils/keyboard.ts:185-231 | A patch keeps the disk consistent |
| Patcher.Attempt | src/utils/keyboard.ts:202-217 | The try block keeps the disk consistent (its outcomes per fault are `PatcherProperties.AttemptOutcomes` and `PatcherProperties.PatchFaultsReported`) |
| Patcher.Verified | src/utils/keyboard.ts:211-215 | The re-read and marker check keep the disk consistent |
| Patcher.Rollback | src/utils/keyboard.ts:218-230 | The catch block keeps the disk consistent (what it restores is `PatcherProperties.RollbackRestores`) |
| Patcher.RestoreStep | src/utils/keyboard.ts:233-252 | Restore keeps the disk consistent; it returns false exactly when no backup is listed; unless it returns true the disk is unchanged; when it returns true only the file is added to or kept among the files |
| Patcher.ComputePatch | src/utils/keyboard.ts:203-207 | The scan, extraction, fix and splice statements give exactly `PatchedContent` |
| Patcher.FileStore.Copy | src/utils/keyboard.ts:200 | `cp` gives the destination the source's text and a new modification time, and changes nothing else |
| Patcher.FileStore.Write | src/utils/keyboard.ts:209 | `Bun.write` stores the text, or the residue of a garbled or throwing write, and reports exactly when it threw |
| Patcher.FileStore.Unlink | src/utils/keyboard.ts:222-223 | `unlink` removes the file and its modification time, and nothing else |
| Patcher.FileStore.TryPatch | src/utils/keyboard.ts:202-217 | The imperative try block ends as `Attempt` gives |
| Patcher.FileStore.VerifyPatch | src/utils/keyboard.ts:211-215 | The imperative re-read and marker check end as `Verified` gives |
| Patcher.FileStore.Patch | src/utils/keyboard.ts:185-231 | The imperative patch (backup, splice, write, re-read, rollback) leaves the disk and returns the result that `PatchStep` gives |
| Patcher.FileStore.RollbackFrom | src/utils/keyboard.ts:218-230 | Copying the backup back and deleting it, ignoring either failure, ends as `Rollback` gives |
| Patcher.FileStore.Restore | src/utils/keyboard.ts:233-252 | The filter, stat and newest-backup loops followed by the copy end as `RestoreStep` gives |
| Patcher.ListBackups | src/utils/keyboard.ts:238-240 | The filter-and-join loop yields exactly `BackupsOf` the listing |
| Patcher.FileStore.AllStated | src/utils/keyboard.ts:245-247 | True exactly when every listed backup exists, so that `stat` succeeds for all |
| Patcher.NewestBackup | src/utils/keyboard.ts:248-250 | The loop picks exactly `NewestIndex`: the first backup with the greatest modification time |
| Patcher.FileStore.IsPatchedAt | src/utils/keyboard.ts:87-91 | Defined exactly for existing files, and true exactly when the content holds the marker |
| Patcher.StatusOf | src/utils/keyboard.ts:254-266 | Found exactly when the located file exists; patched exactly when it holds the marker; `hasBug` exactly when found, not patched and holding the signature |
| Patcher.BackupsOf | src/utils/keyboard.ts:238-240 | The backups are exactly the listed entries starting with `<basename>.backup-`, joined to the directory |
| Patcher.BackupsOfAppend | src/utils/keyboard.ts:238-240 | The filter keeps the listing's order: the backups of two listings in a row are those of the first followed by those of the second |
| Patcher.NewestIndex | src/utils/keyboard.ts:245-250 | The chosen backup has the greatest modification time, and no earlier one has it too (the first of a stable descending sort) |
| PatcherProperties.PatchEarlyExits | src/utils/keyboard.ts:187-195 | A missing file and an already marked file leave the disk unchanged and report no backup |
| PatcherProperties.PatchAllOrNothing | src/utils/keyboard.ts:197-230 | With a working rollback copy, either the patch succeeds, reports the backup, keeps the original in it and changes nothing else but the file, which holds the marker; or it fails, reports no backup, and every file other than the backup path has its text as before; the backup stays when its deletion failed, and a file that already sat at the backup path (possible because the stamp has one-second resolution) is overwritten and then deleted; modification times are not restored |
| PatcherProperties.PatchWritten | src/utils/keyboard.ts:202-217 | With a clean write a computable patch succeeds, reports the backup, and the file becomes exactly the spliced text while the backup holds the original |
| PatcherProperties.PatchFaultsReported | src/utils/keyboard.ts:209-229 | For a computable patch, a throwing write is reported as `WriteFailed`, a throwing re-read as `ReadFailed`; after a garbled write the patch succeeds exactly when the residue holds the marker and otherwise reports `VerifyFailed` |
| PatcherProperties.PatchErrorReported | src/utils/keyboard.ts:202-230 | A scan or extraction error is the reported failure |
| PatcherProperties.PatchBackupKept | src/utils/keyboard.ts:218-224 | When the rollback copy fails, the backup still holds the original |
| PatcherProperties.PatchIdempotent | src/utils/keyboard.ts:193-195 | Patching again after a success changes nothing and reports "already patched" |
| PatcherProperties.SuccessMarked | src/utils/keyboard.ts:193-217 | A success happens only to an unmarked file, and leaves it marked |
| PatcherProperties.StatusAfterPatch | src/utils/keyboard.ts:259-262 | After a successful patch the status is found, patched and without the bug |
| PatcherProperties.RestoreWithoutBackups | src/utils/keyboard.ts:238-242 | Restore returns false and changes nothing exactly when no entry starts with `<basename>.backup-` |
| PatcherProperties.RestoreNewest | src/utils/keyboard.ts:244-251 | A restore that returns true copied a listed backup whose modification time no other listed backup exceeds |
| PatcherProperties.PatchThenRestore | src/utils/keyboard.ts:197-252 | Right after a successful patch newer than everything on the disk, restoring from a listing of the file's directory (`ListsDir`) brings back the original text |
| PatcherProperties.RestorePicksNewest | src/utils/keyboard.ts:245-250 | When one listed backup is strictly newer than all others, restore copies that one |
| Helpers.IntToString | src/utils/helpers.ts:25 | The text of a number is non-empty and starts with `-` exactly when the number is negative |
| Helpers.IntToStringRoundTrip | src/utils/helpers.ts:25 | The decimal text of a count reads back as the count |
| Helpers.Plural | src/utils/helpers.ts:24-26 | The phrase is the count's text, a space, then the word plus the suffix exactly when the count exceeds 1 |
| Helpers.PluralReportsCount | src/utils/helpers.ts:24-26 | The phrase's leading number parses back to the count; 0, 1 and negative counts get no suffix |
| Helpers.PluralDefault | src/utils/helpers.ts:24 | The suffix defaults to `s`: `2 skills`, `1 skill` |
| Helpers.PrintSummary | src/utils/helpers.ts:28-33 | An empty line first; the success line is printed exactly when `ok > 0`, the failure line exactly when `fail > 0`, the restart reminder exactly when `ok > 0`, in that order |
| Helpers.LinesDiffer | src/utils/helpers.ts:29-32 | The four kinds of line (blank, success, failure, restart) are distinct, so presence of each is decided by its own condition |
| Helpers.RestartVerb | src/utils/helpers.ts:32 | The reminder says "activate" after an install and "apply" after a removal |
| Helpers.MaxKeyLength | src/utils/helpers.ts:35-37 | 0 for an empty registry; otherwise at least the length of every key and equal to the length of some key |
| Helpers.MaxKeyLengthAsWritten | src/utils/helpers.ts:35-37 | As written: the code-point length of some key, never more than the padding the keys need |
| Helpers.MaxKeyLengthBmp | src/utils/helpers.ts:35-37 | For keys without astral characters the code as written gives the intended value |
| Helpers.MaxKeyLengthAstral | src/utils/helpers.ts:35-37 | For keys `😀😀` and `abc` the code as written gives 2, less than the length 3 of `abc` |
| Helpers.LongestIndex | src/utils/helpers.ts:36 | `maxBy` picks the first key whose length no other key exceeds |
| Helpers.UnknownMembers | src/utils/helpers.ts:60 | The unknown targets are exactly the targets without a registry entry, each as often as it was given |
| Helpers.UnknownAppend | src/utils/helpers.ts:60 | The filter distributes over concatenation, so the input order is kept |
| Helpers.UnknownAsWritten | src/utils/helpers.ts:60 | As written: a target is unknown exactly when `registry[t]` is falsy, where names inherited from `Object.prototype` count as present |
| Helpers.UnknownAgrees | src/utils/helpers.ts:60 | With truthy entries and no inherited names among the targets, the code as written agrees with the own-entry filter |
| Helpers.UnknownInherited | src/utils/helpers.ts:60 | The target `toString` passes the check as written although no entry has that name |
| Helpers.ValidateTargets | src/utils/helpers.ts:54-67 | Accepted exactly when every target has an entry; otherwise exit code 1 with two stderr lines, the first naming every unknown target and the second naming the help command and the kind of target |
| Helpers.Unknown | src/utils/helpers.ts:60 | The filter yields no more targets than it was given (its members are `Helpers.UnknownMembers`) |
| Helpers.Join | src/utils/helpers.ts:62 | A single name is joined to itself (every part appears: `Helpers.JoinContains`) |
| Helpers.JoinContains | src/utils/helpers.ts:62 | Every part appears in the joined list |

## Left out

- `findCliJs` and `findCliJsRecursive` (src/utils/keyboard.ts:29-85) search the home directory and platform-specific locations on the real disk. The located path is a parameter of the status (`None` when the search throws).
- The file system is a map. `Bun.file`, `Bun.write`, `cp`, `unlink` and `stat` are operations on it. The listing `readdir` returns is a parameter; `PatcherProperties.ListsDir` states when it is the directory's content.
- Faults inside the `try` of `patchCliJs` are parameters: the write (src/utils/keyboard.ts:209), the re-read (src/utils/keyboard.ts:212), and the rollback's `cp` and `unlink` (src/utils/keyboard.ts:221-223).
- A failure of the first read at src/utils/keyboard.ts:191 is not modelled: it lies outside the `try` and would reject the promise with the disk unchanged. The model reads every existing file.
- Failures of `readdir` (src/utils/keyboard.ts:237) and of the restoring `cp` (src/utils/keyboard.ts:250) are not modelled: they reject the promise of `restoreCliJs`. A `stat` failure is modelled only as a listed backup that does not exist (`BackupUnreadable`).
- A failure of the backup `cp` at src/utils/keyboard.ts:200 is not modelled. It sits outside the `try`, so it would reject the promise. The model's backup copy always succeeds.
- `Date.toISOString()` is a parameter string. A modification time is an integer chosen by the caller, not a floating-point `mtimeMs`.
- The order of the `readdir` listing is a parameter.
- `Promise.all` over the `stat` calls is modelled as a sequential loop.
- Paths are POSIX strings. `dirname`, `basename` and `join` are modelled without normalisation of `..`, `.` or repeated and trailing slashes. `Paths.ExtendName` is stated for absolute paths without a leading `//`.
- Characters are Unicode scalar values. JavaScript strings are UTF-16, so the offsets in `findBugBlock` and `slice` agree with the model only for text without astral characters. `Helpers.Utf16Length` models UTF-16 length where `maxKeyLength` depends on it.
- Helpers.MaxKeyLengthAsWritten: lodash `size` counts symbols, roughly graphemes: it groups combining marks with their base, zero-width-joiner sequences, skin-tone modifiers and regional-indicator pairs. The model counts code points, which agree with lodash `size` only for text without such sequences.
- Error messages are tags, not the Vietnamese text of the source. `err instanceof Error ? err.message : String(err)` is the tag of the step that failed.
- The binary-mode engine that tests/keyboard.test.ts exercises is not in `findBugBlock` as written, so it is not modelled.
- Helpers.Plural: `count` is an integer. JavaScript renders fractional numbers, `NaN` and exponent forms differently, and these are not modelled.
- Helpers.PrintSummary: `console.log` is modelled as the list of lines printed; the blank line of `console.log()` is the empty string.
- Helpers.ValidateTargets: `process.exit(1)` is the `Exit` verdict carrying the two stderr lines. It uses the corrected own-entry filter (see Findings).
- `getErrorMsg`, `checkBin`, `checkBinVersion`, `listRegistry` and `requireClaude` (src/utils/helpers.ts) inspect runtime types, spawn processes or only print.

## Findings

| source | as written | input that shows it | evidently intended | confidence | as-written member | corrected member |
|---|---|---|---|---|---|---|
| src/utils/helpers.ts:60 | `!registry[t]` reads through the prototype chain, so a name inherited from `Object.prototype` counts as a registered target | targets `["toString"]` with any registry passes validation | only the registry's own entries are valid targets | medium, not executed | Helpers.UnknownInherited | Helpers.UnknownMembers |
| src/utils/helpers.ts:35-37 | the longest key is picked by UTF-16 `length`, then measured with lodash `size`, which counts symbols (roughly graphemes), while `padEnd` pads by UTF-16 length | keys `😀😀` and `abc` give 2, shorter than both keys | the longest UTF-16 length, which is what `padEnd` needs | low, not executed | Helpers.MaxKeyLengthAstral | Helpers.MaxKeyLength |
