# Star Trail Generator, modelled in Dafny

This project models the two computational parts of the Star Trail Generator repository.

**The window (`star_trail_app.py`).**
- Choosing a folder builds the *manifest*: the folder's files with an image extension (case-insensitive), as paths, sorted ascending.
- "Generate Star Trail" first checks that there is a manifest and an output folder. It then runs `_process_thread`:
  - reads the first frame and folds every later frame into it with a per-pixel `np.maximum`, showing a percentage after each frame;
  - narrows the result to 8 bits and writes it to the image path;
  - writes an animated GIF of every file PIL can open, with the frame duration from the spinbox (50 ms when that is not an integer).
- A file that does not decode, or a frame whose shape differs, ends the run with an error message.
- The button is enabled again in every case.

**The release script (`release.py`).**
- It reads the version from the window title, or `1.0.0` when there is none.
- It chooses the next semantic version: an explicit `--version`, otherwise a major, minor or patch bump, with patch the default.
- It rewrites the window title to name that version.
- It inserts a new entry at the top of `CHANGELOG.md`.

Modules:
- `Wrappers` holds `Option` and `Result`.
- `Text` models Python's `str` operations: `strip`, `lstrip`, `find`, `split` on one character, `endswith` and `lower`.
- `Ordering` models Python's string order and `sorted`.
- `Digits` models `str(n)` and `int(s)`.
- `Seqs` models comprehensions with a filter and append loops that skip failures.
- `Frames` models images, `np.maximum` and `np.uint8`, plus the stacking fold as a specification function `Stack`.
- `Manifest` models `browse_folder`'s list.
- `StarTrailApp` models the window as the class `StarTrailGenerator`:
  - its fields are what the entries, progress bar and status bar hold, plus the files written;
  - two ghost logs record the paths handed to `cv2.imread` and every value the progress bar showed;
  - its methods are proved against the specification function `Run`, about which the run's properties are proved as lemmas.
- `Release` and `ReleaseScenarios` model the release script as pure functions.

Decoding (`cv2.imread`) is a parameter `decode: string -> Option<Frame>`, and PIL's `Image.open` is a parameter `open: string -> bool`. The folder listing, the folder dialog's answer, the changelog's existing text and today's date are also parameters.

## Model

| member | source | states |
|---|---|---|
| Frames.MaxImage | star_trail_app.py:183 | `np.maximum` keeps the shape; every sample is at least both inputs' samples there and equal to one of them, so a fold never lowers the accumulator |
| Frames.Narrow | star_trail_app.py:192 | `np.uint8` keeps the shape; every sample is a byte, and samples already in 0..255 are unchanged |
| Frames.NarrowByteImage | star_trail_app.py:192 | narrowing an image whose samples are all bytes gives the same image |
| Frames.Stack | star_trail_app.py:175-183 | a successful stacking needs a non-empty list whose first file decodes; its result has the first frame's shape |
| Frames.StackStep | star_trail_app.py:181-183 | one iteration: a failed prefix stays failed; otherwise the next file must decode and have the accumulator's shape, and the result is their maximum |
| Frames.StackErrorPersists | star_trail_app.py:181-183 | once a prefix fails, the whole list fails with the same error, as the raised exception leaves the loop |
| Frames.StackSucceedsIff | star_trail_app.py:175-183 | stacking succeeds exactly when every file decodes to a frame of the first frame's shape |
| Frames.StackIsPointwiseMax | star_trail_app.py:175-183 | after the whole list, each sample is at least every frame's sample there and equal to one of them |
| Frames.StackIsByteImage | star_trail_app.py:175-192 | every stacked sample is in 0..255, so the final `np.uint8` conversion loses nothing |
| Frames.StackSingle | star_trail_app.py:175-181 | a one-file list stacks to exactly that file's frame |
| Frames.PointwiseMaxUnique | star_trail_app.py:183 | two images that are each the pointwise maximum of the same set of frames are equal |
| Frames.StackOrderIndependent | star_trail_app.py:181-183 | two lists naming the same files stack to the same result, whatever their order or repetitions |
| Seqs.Filter | star_trail_app.py:211-217 | the kept elements all pass the test, and there are no more of them than inputs |
| Seqs.FilterSnoc | star_trail_app.py:212-217 | one more element at the end is appended exactly when it passes |
| Seqs.FilterConcat | star_trail_app.py:212-217 | filtering distributes over concatenation, so kept elements keep their relative order |
| Seqs.FilterMembers | star_trail_app.py:212-217 | an element is kept exactly when it occurs in the input and passes |
| Seqs.FilterEmpty | star_trail_app.py:219 | nothing is kept exactly when no element passes |
| Seqs.FilterAll | star_trail_app.py:212-217 | when every element passes, the list comes back unchanged |
| Ordering.LexLe | star_trail_app.py:101 | Python's string `<=`: the texts are compared code point by code point, and a proper prefix comes first; the four lemmas below make it a total order |
| Ordering.LexLeReflexive | star_trail_app.py:101 | Python's string `<=` is reflexive |
| Ordering.LexLeTotal | star_trail_app.py:101 | Python's string `<=` is total |
| Ordering.LexLeTransitive | star_trail_app.py:101 | Python's string `<=` is transitive |
| Ordering.LexLeAntisymmetric | star_trail_app.py:101 | Python's string `<=` is antisymmetric |
| Ordering.Insert | star_trail_app.py:101 | inserting into an ascending list keeps it ascending and adds exactly that element |
| Ordering.Sort | star_trail_app.py:101 | `sorted` returns an ascending permutation of its input |
| Ordering.SortedTail | star_trail_app.py:101 | dropping the head of an ascending list keeps it ascending |
| Ordering.SortedHeadLeast | star_trail_app.py:101 | the head of an ascending list is at most each of its elements |
| Ordering.SortedUnique | star_trail_app.py:101 | two ascending permutations of one another are equal, so `sorted` has one possible answer |
| Text.LowerChar | star_trail_app.py:102 | `lower()` maps each of `A`..`Z` to the letter 32 code points above it, in `a`..`z`, and leaves other characters alone |
| Text.EndsWith | star_trail_app.py:102 | `endswith(suffix)`: the suffix is the last characters of the text; `LastCharDiffers`, `IsImageNameExamples` and `Manifest.Join` use it |
| Text.Lower | star_trail_app.py:102 | `lower()` keeps the length and lowers each character |
| Text.IsSpace | star_trail_app.py:206 | the characters Python's `str.isspace` accepts: space, `\t` to `\r`, `\x1c` to `\x1f`, and the Unicode spaces and separators; `LStrip` and `RStrip` drop exactly these |
| Text.LStrip | release.py:53 | `lstrip()` is the longest suffix not starting with whitespace; everything dropped is whitespace |
| Text.LStripSpace | release.py:53 | a leading whitespace character is removed by `lstrip()` |
| Text.RStrip | star_trail_app.py:206 | `rstrip()` is the longest prefix not ending with whitespace; everything dropped is whitespace |
| Text.Strip | star_trail_app.py:206 | `strip()` is `rstrip()` after `lstrip()`, as `int()` applies it; `StripDigits` shows that a digit string is unchanged |
| Text.FindFrom | release.py:50-52 | the answer is an occurrence at or after the start with none before it, or there is none at all |
| Text.Find | release.py:50-52 | `'# Changelog' in content` and `split(.., 1)`: the first occurrence from the start, as `FindFrom` states with start 0 |
| Text.FindFromPrefix | release.py:50-52 | a first occurrence is found at the same place in any text that agrees up to its end |
| Text.FindAfterReplacingRest | release.py:50-53 | keeping the text up to the first occurrence of the pattern and replacing what follows keeps that occurrence first |
| Text.Split | release.py:95 | `split(sep)` yields at least one piece, none holding `sep`, which joined by `sep` give back the text |
| Text.SplitCons | release.py:95 | a piece without separators followed by `sep` splits off as the first piece |
| Text.SplitNoSeparator | release.py:95 | a text without separators splits into itself alone |
| Digits.DigitChar | release.py:102-109 | a digit value is written as an ASCII digit |
| Digits.NatToString | release.py:102-109 | `str(n)` is a digit string that reads back as `n` and has no leading zero |
| Digits.NatToStringParse | release.py:95 | a canonical digit string is `str` of its value |
| Digits.ParseNat | release.py:95 | the value of a run of ASCII digits; `NatToStringParse` and `ParseIntOfNatToString` show it inverts `str` |
| Digits.ParseInt | star_trail_app.py:206 | `int(text)` succeeds exactly when the stripped text is a digit run with an optional sign |
| Digits.ParseIntRejectsCharacter | release.py:95 | a single character that is neither a digit nor whitespace is not an integer |
| Digits.StripDigits | star_trail_app.py:206 | a digit string has no surrounding whitespace to strip |
| Digits.ParseIntOfNatToString | release.py:95 | `int(str(n)) == n` for natural `n` |
| Digits.IntToString | release.py:102-109 | `str(n)` is non-empty and all digits except a leading minus sign |
| Digits.IntToStringDigit | release.py:21 | a number below ten is written as its single digit |
| Digits.ParseIntOfIntToString | release.py:95 | `int(str(n)) == n` for every integer `n` |
| Manifest.IsImageName | star_trail_app.py:102 | a name is an image name when its lower-cased form ends with one of `.jpg`, `.jpeg`, `.png`, `.tif`, `.tiff`; `IsImageNameExamples` and `ManifestMembers` state what it accepts |
| Manifest.IsImageNameExamples | star_trail_app.py:102 | `.JPG` and `.Tiff` names are accepted; `.CR2` and `a.png.bak` are not |
| Manifest.LastCharDiffers | star_trail_app.py:102 | a name does not end with a suffix whose last character differs from its own |
| Manifest.IsAbsolute | star_trail_app.py:195 | a POSIX absolute path is one that starts with `/` |
| Manifest.Join | star_trail_app.py:101 | `os.path.join(folder, name)` (also at lines 195 and 203): an absolute name replaces the folder; otherwise the result is the folder, then a `/` only when the folder is non-empty and does not already end with one, then the name |
| Manifest.JoinEndsWith | star_trail_app.py:195 | a joined path always ends with the name, absolute or not |
| Manifest.JoinExamples | star_trail_app.py:195 | `/photos` joined with `/tmp/trail.jpg` is `/tmp/trail.jpg`; with `trail.jpg` it is `/photos/trail.jpg`, and so is `/photos/` with it; an empty folder leaves the name |
| Manifest.Basename | star_trail_app.py:216 | `os.path.basename` has no `/`, ends the path and starts right after a `/` or at the start |
| Manifest.BasenameOfJoin | star_trail_app.py:216 | the basename of a name joined to a folder is that name |
| Manifest.BasenameAfterSlash | star_trail_app.py:216 | the basename of a name after a path ending in `/` is that name |
| Manifest.JoinAll | star_trail_app.py:101 | each listed name is joined to the folder, in order |
| Manifest.ImageManifest | star_trail_app.py:101-102 | the manifest is ascending and a permutation of the folder joined with each image name of the listing |
| Manifest.ManifestMembers | star_trail_app.py:101-102 | a path is in the manifest exactly when it is the folder joined with a listed name whose lower-cased form ends in an image extension |
| Manifest.ManifestUnique | star_trail_app.py:101-102 | any ascending arrangement of those paths is the manifest |
| StarTrailApp.Progress | star_trail_app.py:186 | the percentage is the floor of `i * 100 / total` |
| StarTrailApp.ProgressTrace | star_trail_app.py:176-187 | the bar shows one value per frame folded in: 1 for the first, then the percentages |
| StarTrailApp.ProgressMonotone | star_trail_app.py:186 | the percentage never falls as more frames are done |
| StarTrailApp.ProgressBelowHundred | star_trail_app.py:176-187 | every value the bar shows during stacking is below 100 |
| StarTrailApp.ProgressTraceMonotoneIff | star_trail_app.py:176-187 | the bar only moves forward exactly when there are at most 100 frames |
| StarTrailApp.GifDuration | star_trail_app.py:205-208 | when the spinbox text reads as an integer the duration is that integer; when it does not, the duration is 50 |
| StarTrailApp.GifDurationOfInteger | star_trail_app.py:205-206 | a duration written as an integer is used as it is |
| StarTrailApp.GifDurationDefault | star_trail_app.py:64 | the spinbox's initial text gives 50 ms |
| StarTrailApp.GifDurationFallback | star_trail_app.py:205-208 | text without any digit falls back to 50 ms |
| StarTrailApp.Stacked | star_trail_app.py:175-189 | the number of files folded in: its prefix stacks, and one more file does not |
| StarTrailApp.ReadCount | star_trail_app.py:175-182 | the number of files `cv2.imread` is called on: those folded in, plus the failing one if any |
| StarTrailApp.StackedStopsAt | star_trail_app.py:181-183 | the first file whose stacking fails is the first one not folded in |
| StarTrailApp.StopsAt | star_trail_app.py:181-183 | where stacking first fails, that many files are folded in, one more is read, and the error is the run's |
| StarTrailApp.AllStacked | star_trail_app.py:181-183 | a successful stacking folds in and reads every file |
| StarTrailApp.StackExtends | star_trail_app.py:182-183 | a frame of the accumulator's shape extends a successful prefix by their maximum |
| StarTrailApp.StackBreaks | star_trail_app.py:182-183 | a frame that does not decode or differs in shape ends the stacking there, with that file's error |
| StarTrailApp.FirstUnreadable | star_trail_app.py:175 | a first file that does not decode ends the run before anything is folded in |
| StarTrailApp.Run | star_trail_app.py:170-240 | a run fails exactly when stacking fails, and then reports the error and writes nothing |
| StarTrailApp.Finish | star_trail_app.py:192-232 | after stacking, the 8-bit image is kept and written at the output folder joined with the image name, and the GIF at the folder joined with the GIF name; the run ends completed or with no GIF images |
| StarTrailApp.RunFailed | star_trail_app.py:234-236 | a failed stacking reports its error and changes neither the files nor the kept image |
| StarTrailApp.RunStacked | star_trail_app.py:192-232 | a successful stacking goes on to write the narrowed image and the GIF of the files that open |
| StarTrailApp.RunKeepsOtherFiles | star_trail_app.py:195-226 | a run writes nothing except the image path and the GIF path |
| StarTrailApp.RunFailsIff | star_trail_app.py:175-236 | a run fails exactly when some file does not decode or differs in shape from the first |
| StarTrailApp.RunWritesStackedImage | star_trail_app.py:192-196 | a successful run keeps and writes the per-pixel maximum over all frames, an 8-bit image |
| StarTrailApp.RunWritesAnimation | star_trail_app.py:210-229 | when some file opens, the GIF holds the files that open in manifest order, with the chosen duration, looping, and the run reports success |
| StarTrailApp.RunWithoutAnimation | star_trail_app.py:219-232 | when no file opens, only the image is written and the GIF failure is reported |
| StarTrailApp.RunSingleImage | star_trail_app.py:175-192 | a one-file manifest produces exactly that file's frame |
| StarTrailApp.RunOrderIndependent | star_trail_app.py:181-183 | the stacked image depends only on which files are listed, not their order |
| StarTrailApp.StarTrailGenerator.constructor | star_trail_app.py:11-23 | the window starts empty, with the default file names, a duration of "50", an empty bar and "Ready" |
| StarTrailApp.StarTrailGenerator.BrowseFolder | star_trail_app.py:90-103 | a cancelled dialog changes nothing; otherwise the folder becomes the input and output folder and the manifest is rebuilt |
| StarTrailApp.StarTrailGenerator.StackFiles | star_trail_app.py:172-189 | the result is `Stack` of the manifest; the files read and the bar values shown are the prefixes `ReadCount` and `Stacked` give |
| StarTrailApp.StarTrailGenerator.FoldFrames | star_trail_app.py:179-189 | the loop from index 1 reaches `Stack` of the manifest, reading files and showing percentages in list order |
| StarTrailApp.StarTrailGenerator.OpenAll | star_trail_app.py:210-217 | the frames are the files that open, in manifest order; the status changes only when some file fails to open |
| StarTrailApp.StarTrailGenerator.ProcessThread | star_trail_app.py:170-240 | the new state is `Run`'s outcome, the button is enabled again, and the read and progress logs grow as stacking dictates |
| StarTrailApp.StarTrailGenerator.Conclude | star_trail_app.py:191-236 | given the stacking outcome, the new image, files, status and message are `Run`'s, with both output paths joined to the output folder as at lines 195 and 203 |
| StarTrailApp.StarTrailGenerator.SaveImage | star_trail_app.py:192-202 | the 8-bit image is kept and written to the given path, and nothing else is written; the status moves to creating the GIF |
| StarTrailApp.StarTrailGenerator.SaveAnimation | star_trail_app.py:219-232 | opened frames are written at the given path as a looping GIF with success reported; no frames means no GIF and an error message |
| StarTrailApp.StarTrailGenerator.WriteOutputs | star_trail_app.py:192-232 | the new image, files, status and message are `Finish`'s for the files that open and the two given paths |
| StarTrailApp.StarTrailGenerator.ProcessImages | star_trail_app.py:154-168 | no manifest or no output folder: one error message and nothing read, shown or written; otherwise the state after `Run` |
| StarTrailApp.StarTrailGenerator.StartProcessing | star_trail_app.py:163-168 | the bar is reset to 0, then the run happens and the button is enabled again |
| Release.TitleWith | release.py:32 | the replacement `\1 v{new_version}\3`; `TitleWithMatches` shows the pattern matches it in full and reads back its version |
| Release.NonQuoteRun | release.py:31 | `[^"]+` takes the longest run without a double quote, stopping at one |
| Release.TitleMatch | release.py:31 | a match starts with the title call and spans at least the title start and the closing `")`; `TitleMatchIff` states exactly which prefixes it matches |
| Release.IsTitle | release.py:31 | the texts the title pattern matches in full, as a language: the bare call, or the call naming a non-empty version without quotes |
| Release.TitleMatchIff | release.py:31 | the pattern matches the first `n` characters exactly when they are a title text: the bare call, or the call naming a non-empty version without quotes |
| Release.TitleMatchComplete | release.py:31 | a text starting with a title text is matched over exactly that title text |
| Release.TitleMatchSound | release.py:31 | whatever the pattern matches is a title text |
| Release.VersionedMatchSound | release.py:31 | a match that continues with ` v` covers the title call naming the quote-free run after it |
| Release.BareMatchSound | release.py:31 | a match that does not continue with ` v` is the bare title call |
| Release.VersionedTitle | release.py:31-32 | the call naming a non-empty version without quotes is a title text |
| Release.BareTitleMatches | release.py:31 | the bare title call is matched in full, whatever follows it |
| Release.NoTitleNoMatch | release.py:30-34 | a text that starts with neither the bare nor a versioned title call is not matched |
| Release.VersionAt | release.py:18 | a version found at a position is non-empty, has no quote, and lies where the title substitution matches too; `VersionAtIff` states which version it is |
| Release.VersionAtIff | release.py:18 | the pattern reads version `v` exactly when `v` is non-empty, has no quote, and the text starts with the title call naming `v` |
| Release.VersionAtSound | release.py:18 | the version read from a text is the one named by the title call the text starts with |
| Release.SearchVersion | release.py:18 | the search finds nothing exactly when no position matches; a found version is non-empty without quotes |
| Release.CurrentVersion | release.py:14-21 | the current version is non-empty, and is `1.0.0` when no versioned title occurs |
| Release.FirstTitle | release.py:30-34 | the first position where the title pattern matches, with none before it |
| Release.TitleHeadFacts | release.py:31 | the title start is 37 characters, with `s` only at its start |
| Release.NonQuoteRunPrefix | release.py:31 | the greedy run stops at the same place in texts that agree up to a quote |
| Release.MatchDecidedByPrefix | release.py:31 | whether the title pattern matches is decided by the text up to a quote and one more character |
| Release.VersionDecidedByPrefix | release.py:31 | after ` v`, the version run and the closing `")` are decided by the text up to a quote |
| Release.HeadsDoNotOverlap | release.py:31 | two title calls never overlap |
| Release.NoMatchKept | release.py:30-34 | rewriting a later title call cannot create a match at an earlier position |
| Release.TitleWithMatches | release.py:30-34 | the replacement text matches again in full and names the version it was built with |
| Release.NonQuoteRunUpTo | release.py:31 | the greedy run over a quote-free version stops at the closing quote |
| Release.UpdateTitle | release.py:30-34 | `re.sub` over the whole text; `UpdateTitleSkip`, `UpdateTitleFirst`, `UpdateTitleNoMatch`, `UpdateTitleIdempotent` and `CurrentVersionAfterUpdate` state what it does |
| Release.UpdateTitleSkip | release.py:30-34 | text before the first match is copied unchanged |
| Release.UpdateTitleNoMatch | release.py:30-34 | text without a title call is left as it is |
| Release.UpdateTitleFirst | release.py:30-34 | the first match is replaced by the title naming the version, and the scan resumes after it |
| Release.TitleWithStarts | release.py:32 | the replacement starts with the title start |
| Release.SpliceKeepsNoMatch | release.py:30-34 | a position that starts no match still starts none after a later match is replaced |
| Release.UpdateTitleKeepsNoMatch | release.py:30-34 | a character that starts no match still starts none once the rest is substituted |
| Release.UpdateTitleIdempotent | release.py:30-34 | substituting twice with the same version gives the text of substituting once |
| Release.SearchVersionFinds | release.py:18 | `re.search` returns the version at the first position where the pattern matches |
| Release.CurrentVersionAfterUpdate | release.py:14-34 | after the title is rewritten with a version, the current version read back is that version |
| Release.UnversionedTitle | release.py:18-21 | for a title call without a version, as the application ships, the current version is the default |
| Release.UnversionedTitleUpdate | release.py:30-34 | the first release inserts ` v<version>` into the untitled call, and that version is then read back |
| Release.VersionString | release.py:102-109 | the f-string `{major}.{minor}.{patch}`; `ParseVersionString` shows that parsing reads it back |
| Release.ParseVersion | release.py:94-98 | parsing succeeds exactly when there are three `.`-separated fields that all read as integers, and then yields those integers; otherwise it fails with the current version in the error |
| Release.SplitThree | release.py:95 | splitting `a.b.c` at `.` gives the three fields when none of them holds a `.` |
| Release.ParseVersionString | release.py:95-109 | a version written as `major.minor.patch` parses back to itself |
| Release.BumpText | release.py:102-109 | the bumped version's text is `{major+1}.0.0` for `--major`, `{major}.{minor+1}.0` for `--minor`, and `{major}.{minor}.{patch+1}` otherwise |
| Release.Bump | release.py:100-109 | major wins over minor over patch, with patch the default; lower fields reset to 0; the result follows the old version in precedence |
| Release.NewVersion | release.py:89-109 | a non-empty `--version` wins; otherwise it fails exactly when the current version does not parse, and the result is the f-string text `{major+1}.0.0` for `--major`, `{major}.{minor+1}.0` for `--minor` and `{major}.{minor}.{patch+1}` otherwise, which parses back to the bumped version |
| Release.ChangelogEntry | release.py:43 | the entry is non-empty and starts with `#` |
| Release.BeforeHeader | release.py:50-53 | `parts[0]` of `split('# Changelog', 1)`: the text before the first heading, or all of it when there is none; `ChangelogHeaderStays` states its use |
| Release.AfterHeader | release.py:50-53 | `parts[1].lstrip()`: the text after the first heading with leading whitespace removed; `ChangelogHeaderStays` states its use |
| Release.UpdateChangelog | release.py:40-59 | a missing file becomes the heading, a blank line and the entry; text without the heading gets the entry in front |
| Release.ChangelogHeaderStays | release.py:50-53 | with the heading, the result is the text before it, the heading, a blank line, the entry and the rest with leading whitespace removed; the heading stays first |
| Release.LStripBlankLines | release.py:53 | stripping the blank lines in front of an entry stops at its `#` |
| Release.UpdateInFrontOf | release.py:50-53 | a new entry goes directly in front of the entry under the heading |
| Release.ChangelogNewestFirst | release.py:42-59 | two releases leave their entries newest first under the heading, the rest unchanged, starting from a missing file too |
| ReleaseScenarios.DefaultVersionText | release.py:21 | the default version is the text `1.0.0` and parses to 1.0.0 |
| ReleaseScenarios.ParseVersionRejectsFieldCount | release.py:94-98 | `1.2` and `1.2.3.4` are not semantic versions |
| ReleaseScenarios.ParseVersionRejectsLetter | release.py:94-98 | `1.x.3` is not a semantic version |

## Left out

- Paths follow POSIX `os.path` rules: `join` keeps an absolute name (one starting with `/`) in place of the folder and otherwise inserts `/`, and `basename` splits at `/`, as the contracts of `Manifest.Join` and `Manifest.Basename` state. On Windows `join` inserts `\`, treats drive letters and `\` as marking absolute names, and `basename` splits at both `/` and `\`. `BasenameOfJoin` would still hold there, because names from the folder listing hold no separator.
- The Tk window itself is not modelled. That covers `setup_ui` widget layout, `browse_output`, `update_preview` and its float scaling and `cv2.resize`, and `root.after`/`update_idletasks`. The output folder therefore changes only through `BrowseFolder`.
- The worker thread of `process_images` is not modelled. `StartProcessing` runs `_process_thread` to completion, so no other event interleaves with it.
- `cv2.imread`, `cv2.imwrite`, `PIL.Image.open` and GIF encoding are foreign calls. Decoding and opening are parameters. Writing is recorded as an entry in the map of written files. A failure inside `imwrite` or `save` is not modelled.
- Frames are 3-channel colour images, as `cv2.imread` returns by default. NumPy broadcasting of frames whose shapes differ but are broadcast-compatible (one row or one column) is treated as a shape mismatch.
- Frames.Narrow: the conversion of samples outside 0..255 is platform-specific in NumPy; the model reduces them modulo 256. Stacking never produces such samples (StackIsByteImage).
- StarTrailApp.Progress: computes the exact floor of `i * 100 / total`. The source computes `(i / total) * 100` in double precision, which can come out one lower (29 of 100 frames shows 28).
- The status bar texts and message box texts are datatype constructors, not the formatted strings. Exception messages (`str(e)`) are reduced to the `Failure` that caused them.
- Digits.ParseInt: accepts surrounding whitespace, an optional sign and ASCII digits. Python's `int` also accepts underscores between digits and non-ASCII decimal digits, and those are not modelled.
- Text.Lower: lowers ASCII letters only. Python's `str.lower` also lowers other alphabets.
- The `re.sub` replacement text is modelled as `TitleWith(version)`. A version holding a backslash, which `re.sub` would treat as an escape, is not modelled. A version holding `"` cannot be read back, so the title lemmas require a version without quotes.
- The release script's file reads and writes, `argparse`, `input()`, `datetime.now()`, the git commands and the `print` output are not modelled. The current source text, the changelog text (or its absence), the flags, the message and the date are parameters.
- `main` exits on a version that does not parse. Here that is the `NotSemanticVersion` error.
