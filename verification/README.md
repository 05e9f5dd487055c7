# UnicodeFix in Dafny

UnicodeFix turns typographic and invisible Unicode characters into plain
ASCII text. Its core is `clean_text`, a five-step pipeline:

1. a substitution table rewrites smart quotes, en and em dashes, the
   ellipsis and the non-breaking space;
2. the zero-width characters, the byte-order mark and the soft hyphen are
   deleted;
3. CR LF and lone CR become LF;
4. spaces and tabs before a line feed are removed;
5. on Windows, each LF becomes CR LF.

Around it sit three callers:

- the command-line script `cleanup-text.py`. It has its own copy of
  `clean_text`, a path-safety check, an output-name rule and a batch loop
  that skips duplicates;
- the importable module `cleanup_text_module.py`, with a type-checking
  `clean_text` and the statistics function `get_unicode_info`;
- the FastAPI application `web_app.py`. Its text and file endpoints report
  sizes and a change count computed by `count_unicode_changes`.

The project models each of these as pure functions over `string`
(`seq<char>`, one element per code point). Steps 1, 3, 4 and 5 are each
written twice:

- as the source performs it: a loop of `str.replace` calls, a chained
  replace, a regular-expression scan, or a single replace;
- as a per-character reference definition.

Each pair is proved equal. Step 2 deletes one character class and is
written once, character by character. The properties of the pipeline are
proved on the reference definitions and carried back to the faithful chain
`Clean`.

Modules, one per file:

| module | file | contents |
|---|---|---|
| `Wrappers` | `wrappers.dfy` | `Option`, `Result` |
| `Strings` | `strings.dfy` | `str.replace`, prefix and suffix tests, substring test, `count` |
| `CharTable` | `char_table.dfy` | the substitution table and the character classes |
| `Normalize` | `normalize.dfy` | the five steps and the pipeline `Clean` |
| `CleanProps` | `clean_props.dfy` | properties of the whole pipeline and worked examples |
| `CleanupModule` | `cleanup_module.dfy` | strict `clean_text` and `get_unicode_info` |
| `CleanupScript` | `cleanup_script.dfy` | lenient `clean_text`, `is_safe_path`, `splitext`, text-mode reading and writing, the plan of `main` |
| `WebApp` | `web_app.dfy` | `count_unicode_changes`, `str.strip`, both endpoints |

The host-dependent parts are parameters:

- `os.name == 'nt'` is the flag `windows`;
- `os.path.normpath`, `os.path.isabs` and `os.getcwd()` are the fields of a
  `PathEnv`;
- what opening and reading each argument returns when the loop reaches it,
  and whether its output file can be written then, are fields of a `Host`;
- an upload reaches the file endpoint as its file name and either its
  decoded text or the message of the exception that reading it raised.

The script opens its files in text mode with the default newline handling,
and the model states that translation explicitly:

- `f.read()` turns CR LF and every lone CR into LF before `clean_text` sees
  the text (`ReadText`). This can change the result: a CR, a zero-width
  space and LF read from a file clean to two line feeds, while `clean_text`
  of the same three characters gives one (`ReadBeforeCleanExample`).
- `f.write` turns each LF into `os.linesep`. On Windows step 5 has already
  made CR LF of each LF, so every line break reaches the output file as
  CR CR LF (`WindowsFileDoubleCr`).
- Standard input is read with universal newlines only on Windows
  (`ReadStdin`), and standard output is written like a file.

Some facts about the code that are easy to miss:

- `main` tests for a duplicate (bin/cleanup-text.py:136) before it checks
  path safety (bin/cleanup-text.py:142). So a repeated unsafe path is
  reported as a duplicate (`RepeatIsDuplicate`).
- The module's `clean_text` raises `TypeError` for a non-string
  (bin/cleanup_text_module.py:34-35, `CleanText`). The script's copy has no
  such check (`CleanTextScript`).
- The module's docstring example (bin/cleanup_text_module.py:31) is stored
  mis-encoded. The examples follow the script's docstring
  (bin/cleanup-text.py:45-46), which has a real em dash.

## Model

| member | source | states |
|---|---|---|
| `Strings.ReplaceCharIsMap` | bin/cleanup_text_module.py:50 | `str.replace` with a one-character pattern rewrites every occurrence of that character, each on its own |
| `Strings.Replace` | bin/cleanup_text_module.py:50-63 | `str.replace` with a non-empty pattern: a left-to-right scan that replaces each non-overlapping occurrence; `ReplaceCharIsMap` and `Normalize.CrlfThenCr` state what it does for the patterns the cleaner uses |
| `Strings.ApplyRulesIsMap` | bin/cleanup_text_module.py:49-50 | replacing the entries one after another equals rewriting each character by its entry, provided no replacement text contains any entry's source |
| `CharTable.TableSources` | bin/cleanup_text_module.py:40-46 | the table rewrites exactly the eight listed characters; each is non-ASCII and none is invisible |
| `CharTable.ReplacementsAscii` | bin/cleanup_text_module.py:40-46 | every replacement text is ASCII |
| `CharTable.TableWellFormed` | bin/cleanup_text_module.py:40-50 | no replacement text contains a source, so the dictionary's iteration order cannot change the outcome |
| `CharTable.LookupIsReplacement` | bin/cleanup_text_module.py:40-50 | looking a character up in the table yields its ASCII replacement, and any other character stays itself |
| `Normalize.Substitute` | bin/cleanup_text_module.py:48-50 | the loop of `replace` calls equals replacing every character by its table entry independently |
| `Normalize.SubstituteIsMapChars` | bin/cleanup_text_module.py:40-50 | rewriting each character by the first table entry for it equals the per-character table rewrite |
| `Normalize.SubstituteContents` | bin/cleanup_text_module.py:49-50 | after step 1 no table source remains; every character came from the input or is ASCII; text without a source is unchanged |
| `Normalize.SubstituteAppend` | bin/cleanup_text_module.py:49-50 | step 1 works on the two halves of a text independently |
| `Normalize.SubstituteLength` | bin/cleanup_text_module.py:40-50 | step 1 lengthens the text by exactly two characters per ellipsis |
| `Normalize.DeleteInvisible` | bin/cleanup_text_module.py:53 | step 2, `re.sub` with the five-character class and an empty replacement: each character of the class is dropped where it stands; `DeleteInvisibleContents` and `DeleteInvisibleCounts` state what it does |
| `Normalize.DeleteInvisibleContents` | bin/cleanup_text_module.py:53 | after step 2 no invisible character remains, nothing new appears, and text without one is unchanged |
| `Normalize.DeleteInvisibleCounts` | bin/cleanup_text_module.py:53 | step 2 keeps every visible character exactly as often as it occurs (multiset count) and drops every invisible one |
| `Normalize.DeleteInvisibleAppend` | bin/cleanup_text_module.py:53 | step 2 works on the two halves of a text independently |
| `Normalize.NormalizeLineEndings` | bin/cleanup_text_module.py:56 | the chained `replace('\r\n', '\n').replace('\r', '\n')` drops a CR before LF and turns every other CR into LF |
| `Normalize.CrlfThenCr` | bin/cleanup_text_module.py:56 | replacing CR LF by LF and then CR by LF equals one left-to-right rule: a CR directly before LF is dropped, any other CR becomes LF |
| `Normalize.LineEndingsContents` | bin/cleanup_text_module.py:56 | after step 3 no CR remains, only LF can be new, and text without CR is unchanged |
| `Normalize.LineEndingsAppend` | bin/cleanup_text_module.py:56 | step 3 works on two halves independently when the first half does not end in CR |
| `Normalize.LineEndingsKeepFinalLf` | bin/cleanup_text_module.py:56 | a text ending in LF still ends in LF after step 3 |
| `Normalize.BlankRun` | bin/cleanup_text_module.py:59 | the greedy `[ \t]+` match is the longest run of spaces and tabs at that position |
| `Normalize.StripTrailingBlanks` | bin/cleanup_text_module.py:59 | the left-to-right regular-expression scan drops a space or tab exactly when the next character that is not a space or tab is LF |
| `Normalize.MatchDropsRun` | bin/cleanup_text_module.py:59 | where spaces and tabs run up to a LF, the match replaces the run and its LF by a single LF |
| `Normalize.StripContents` | bin/cleanup_text_module.py:59 | after step 4 no space or tab stands before LF, and nothing new appears |
| `Normalize.StripFixesClean` | bin/cleanup_text_module.py:59 | text with no space or tab before LF is unchanged by step 4 |
| `Normalize.StripAppend` | bin/cleanup_text_module.py:59 | step 4 works on two halves independently when the first half does not end in a space or tab |
| `Normalize.StripKeepsLastLine` | bin/cleanup_text_module.py:59 | a final line without LF keeps its trailing spaces and tabs |
| `Normalize.ExpandLineEndings` | bin/cleanup_text_module.py:62-63 | `replace('\n', '\r\n')` turns every LF into CR LF and leaves every other character alone |
| `Normalize.ExpandIsMapChars` | bin/cleanup_text_module.py:63 | rewriting LF as CR LF character by character equals the per-character step 5 |
| `Normalize.ExpandContents` | bin/cleanup_text_module.py:63 | step 5 adds no character other than CR |
| `Normalize.ExpandRoundTrip` | bin/cleanup_text_module.py:56-63 | on text without CR, normalising line endings after step 5 gives the text back |
| `Normalize.ExpandCrlfOnly` | bin/cleanup_text_module.py:63 | on text without CR, the output of step 5 uses CR LF exclusively: no lone CR, no lone LF |
| `Normalize.Clean` | bin/cleanup_text_module.py:40-63 | the five steps in the source's order equal the composition of the per-character steps |
| `CleanProps.CleanComplete` | bin/cleanup_text_module.py:40-63 | no table source and no invisible character survive; on POSIX no CR survives and no space or tab stands before LF either |
| `CleanProps.CleanFixesClean` | bin/cleanup_text_module.py:40-63 | on POSIX, already clean text comes back unchanged |
| `CleanProps.CleanUnchangedIff` | bin/cleanup_text_module.py:40-63 | on POSIX, the cleaner leaves a text unchanged if and only if it is clean |
| `CleanProps.WindowsExpandsPosix` | bin/cleanup_text_module.py:56-63 | the Windows output is the POSIX output with LF replaced by CR LF; normalising its line endings gives the POSIX output back; it uses CR LF exclusively |
| `CleanProps.CleanIdempotent` | bin/cleanup_text_module.py:40-63 | cleaning twice gives the same result as cleaning once, on either platform |
| `CleanProps.CleanEmpty` | bin/cleanup_text_module.py:37-38 | the five steps map the empty text to itself, so the early return for it changes nothing |
| `CleanProps.LastLineKeepsTrailingBlanks` | bin/cleanup_text_module.py:40-59 | for any final line without LF or CR, the text before it is cleaned on its own and the final line only goes through the table and the deletion of invisible characters: its trailing spaces and tabs survive, including a space the table makes from a non-breaking space; a final line with nothing for those two steps is appended exactly as it is |
| `CleanProps.SubstituteNoLine` | bin/cleanup_text_module.py:40-50 | the table brings in no LF and no CR |
| `CleanProps.BlankBeforeLfStripped` | bin/cleanup_text_module.py:59 | a space before LF between two plain ASCII lines is removed and nothing else changes |
| `CleanProps.TableCharInLine` | bin/cleanup_text_module.py:40-50 | one table character inside an otherwise clean line is replaced by its entry and nothing else changes |
| `CleanProps.InvisibleInLine` | bin/cleanup_text_module.py:53 | one invisible character inside an otherwise clean line is deleted and nothing else changes |
| `CleanProps.NbspZwspBeforeLfStripped` | bin/cleanup_text_module.py:45-59 | a non-breaking space followed by a zero-width space at the end of a line disappears: step 1 makes a space, step 2 removes the zero-width space, step 4 strips the space |
| `CleanProps.LineOnlySubstituted` | bin/cleanup_text_module.py:40-63 | a single line without invisible characters or CR is changed by the table only, on either platform |
| `CleanProps.DocExample` | bin/cleanup-text.py:44-46 | the docstring example: `"Hello" — World` becomes `"Hello" - World` |
| `CleanProps.EllipsisExample` | bin/cleanup_text_module.py:44 | an ellipsis becomes three full stops |
| `CleanProps.QuotesExample` | bin/cleanup_text_module.py:41 | a right single quote becomes an apostrophe and an accented letter is kept |
| `CleanProps.InvisibleExample` | bin/cleanup_text_module.py:53 | a zero-width space between two words is deleted |
| `CleanProps.OrderingExample` | bin/cleanup_text_module.py:45-59 | `a` followed by NBSP, ZWSP and LF becomes `a` followed by LF |
| `CleanProps.TrailingSpaceExample` | bin/cleanup_text_module.py:59 | `line1 ` LF `line2` loses the space before the line feed |
| `CleanProps.CarriageReturnExample` | bin/cleanup_text_module.py:56 | CR CR LF becomes LF LF: the lone CR and the CR LF pair each give one line feed |
| `CleanupModule.CleanText` | bin/cleanup_text_module.py:14-65 | a non-string raises `TypeError("Input must be a string")`; every string, the empty one included, gets the pipeline's result |
| `CleanupModule.CleanTextComplete` | bin/cleanup_text_module.py:14-65 | the strict variant always succeeds on strings, its output is free of table sources and invisible characters, and cleaning that output again changes nothing |
| `CleanupModule.AsciiCountBound` | bin/cleanup_text_module.py:87-89 | the ASCII count never exceeds the length, so `unicode_chars` is a natural number |
| `CleanupModule.AsciiCount` | bin/cleanup_text_module.py:88 | `sum(1 for c in text if ord(c) < 128)`: one for each character below U+0080; `AsciiCountBound` bounds it |
| `CleanupModule.SumCounts` | bin/cleanup_text_module.py:100 | the sum of `text.count(c)` over a pattern list; `ProblematicIsTableSourceCount` states what it counts for the problematic patterns |
| `CleanupModule.InvisibleCount` | bin/cleanup_text_module.py:103-104 | the number of `re.findall` matches of the five-character class, one per invisible character; `InfoZeroIff` states when it is zero |
| `CleanupModule.GetUnicodeInfo` | bin/cleanup_text_module.py:68-112 | all counts are zero for the empty text; `total_chars` is the length and splits into `ascii_chars` and `unicode_chars` |
| `CleanupModule.PatternsAreTableSources` | bin/cleanup_text_module.py:92-98 | the problematic patterns are exactly the substitution table's sources, each listed once |
| `CleanupModule.ProblematicIsTableSourceCount` | bin/cleanup_text_module.py:100 | summing `count` over the patterns counts the characters the table rewrites |
| `CleanupModule.InfoZeroIff` | bin/cleanup_text_module.py:100-104 | `problematic_chars` and `invisible_chars` are both zero if and only if the text has no table source and no invisible character |
| `CleanupModule.InfoOfCleanOutput` | bin/cleanup_text_module.py:68-112 | on any output of `clean_text`, the problematic and invisible counts are zero |
| `CleanupModule.InfoFlaggedWithinUnicode` | bin/cleanup_text_module.py:87-104 | problematic plus invisible characters never exceed `unicode_chars` |
| `CleanupScript.CleanTextScript` | bin/cleanup-text.py:28-72 | the script's copy, which has no type check and no early return, answers every string exactly as the strict module does |
| `CleanupScript.IsSafePath` | bin/cleanup-text.py:75-104 | the four checks in the source's order: empty path, `..` in the normal form, an absolute normal form outside the working directory, a suspicious character in the raw path; `SafePathIff` states the result |
| `CleanupScript.SafePathIff` | bin/cleanup-text.py:75-104 | a path is safe if and only if it is non-empty, its normal form has no `..`, an absolute normal form starts with the working directory, and the raw path has none of the seven suspicious characters |
| `CleanupScript.SuspiciousCharUnsafe` | bin/cleanup-text.py:100-102 | any suspicious character anywhere in the path makes it unsafe |
| `CleanupScript.DotDotUnsafe` | bin/cleanup-text.py:92-93 | `..` anywhere in the normal form makes the path unsafe |
| `CleanupScript.FileNameWithDotsUnsafe` | bin/cleanup-text.py:92-93 | a file name such as `a..b` is rejected although it does not leave the directory |
| `CleanupScript.SiblingDirectoryPasses` | bin/cleanup-text.py:96-97 | the working-directory test is a string prefix test, so `/home/userX/f` passes when the working directory is `/home/user` |
| `CleanupScript.SplitExt` | bin/cleanup-text.py:151 | `os.path.splitext` as CPython's `_splitext` computes it: the last dot after the last separator starts the extension unless only dots precede it there; `SplitExtParts` states the result |
| `CleanupScript.SplitExtParts` | bin/cleanup-text.py:151 | `splitext` cuts the path into two parts that concatenate back to it; the extension is empty or a dot followed by no dot and no separator |
| `CleanupScript.SplitExtStemExt` | bin/cleanup-text.py:151 | a stem without separators that is not all dots, followed by a one-dot extension, splits into exactly that stem and extension |
| `CleanupScript.SplitExtLeadingDot` | bin/cleanup-text.py:151 | a name whose only dot is its first character has no extension |
| `CleanupScript.OutputName` | bin/cleanup-text.py:151-152 | the output name ends in `.clean.txt`, and what precedes the suffix is a prefix of the input path |
| `CleanupScript.OutputNameExample` | bin/cleanup-text.py:14-17 | `file1.txt` is written to `file1.clean.txt` |
| `CleanupScript.OutputNameHidden` | bin/cleanup-text.py:151-152 | `.bashrc` is written to `.bashrc.clean.txt` |
| `CleanupScript.ReadText` | bin/cleanup-text.py:147-148 | a text-mode read with universal newlines: CR LF and every lone CR become LF, as in step 3 |
| `CleanupScript.ReadStdin` | bin/cleanup-text.py:125 | `sys.stdin.read()`: universal newlines on Windows, the text unchanged elsewhere |
| `CleanupScript.WriteText` | bin/cleanup-text.py:153-154 | a text-mode write: every LF is stored as `os.linesep` |
| `CleanupScript.Process` | bin/cleanup-text.py:146-157 | a failed read or a failed write gives a failure, otherwise the cleaned text is written to the output name; `BatchOutputs` states the result |
| `CleanupScript.Plan` | bin/cleanup-text.py:130-157 | the loop yields one outcome per argument |
| `CleanupScript.PlanAt` | bin/cleanup-text.py:130-144 | with a `seen` set given in advance, each argument is skipped when empty, a duplicate when in `seen` or earlier in the list, else rejected when unsafe, else processed |
| `CleanupScript.Batch` | bin/cleanup-text.py:130-157 | the loop started with an empty `seen` set, one outcome per argument; `BatchAt` states each outcome |
| `CleanupScript.BatchAt` | bin/cleanup-text.py:130-157 | in a run, argument `i` is skipped when empty, a duplicate when it occurred earlier, else rejected when unsafe, else processed |
| `CleanupScript.RepeatIsDuplicate` | bin/cleanup-text.py:136-144 | a repeated non-empty argument is reported as a duplicate, whether or not it is safe |
| `CleanupScript.BatchOutputs` | bin/cleanup-text.py:146-155 | a cleaned argument was readable, and its output name ends in `.clean.txt` and was writable; the text handed to `write` is the cleaner's output for what the text-mode `read` returned, and the file holds that text after the write's newline translation |
| `CleanupScript.RunCli` | bin/cleanup-text.py:122-131 | with no arguments, standard input as read is cleaned as one text and written to standard output with the write's newline translation; otherwise the outcomes are exactly the batch plan's |
| `CleanupScript.PosixFileIsClean` | bin/cleanup-text.py:146-154 | on POSIX the output file holds exactly the text handed to `write`, and that text is clean |
| `CleanupScript.WindowsFileDoubleCr` | bin/cleanup-text.py:69-70 | on Windows the text-mode write expands the CR LF of step 5 again, so the file holds the POSIX result with each LF expanded twice |
| `CleanupScript.DoubleCrExample` | bin/cleanup-text.py:153-154 | a plain character and LF, cleaned and written on Windows, are stored as that character, CR, CR, LF |
| `CleanupScript.ReadBeforeCleanExample` | bin/cleanup-text.py:147-149 | a CR, an invisible character and LF read from a file clean to two line feeds, while `clean_text` of the same characters gives one |
| `WebApp.CountUnicodeChanges` | web_app.py:55-68 | the mismatch count over the shorter length plus the length difference equals the positional difference `Diff` |
| `WebApp.MismatchesFrom` | web_app.py:59-63 | the loop over the common length: one for each position where the texts differ; `MismatchesFromIsDiff` states its value |
| `WebApp.MismatchesFromIsDiff` | web_app.py:59-66 | what the loop still counts from index `i`, plus the length difference, is the positional difference of the two remainders |
| `WebApp.DiffZeroIff` | web_app.py:55-68 | the count is zero if and only if the texts are equal |
| `WebApp.DiffSymmetric` | web_app.py:55-68 | the count does not depend on which text is the original |
| `WebApp.DiffBounds` | web_app.py:55-68 | the count lies between the difference in length and the greater length |
| `WebApp.DiffCommonPrefix` | web_app.py:59-63 | a common prefix contributes no changes |
| `WebApp.OneSubstitution` | web_app.py:59-63 | replacing one character by a different one counts exactly one change |
| `WebApp.DeletionShifts` | web_app.py:55-68 | a deletion also counts every shifted position that now differs, so removing one character can count many changes |
| `WebApp.IsPySpace` | web_app.py:251 | Python's white-space characters for `str.strip`: U+0009 to U+000D, U+001C to U+001F, space, U+0085, U+00A0, U+1680, U+2000 to U+200A, U+2028, U+2029, U+202F, U+205F and U+3000 |
| `WebApp.Strip` | web_app.py:300 | `str.strip()`: leading, then trailing white space removed; `StripEmptyIff` states when it is empty |
| `WebApp.StripEmptyIff` | web_app.py:251 | `text.strip()` is empty if and only if every character is white space in Python's sense |
| `WebApp.Cleaned` | web_app.py:254-265 | the success response carries the cleaned text, its size and the original's, the positional change count between the two and no error; it reports zero changes exactly when cleaning changed nothing |
| `WebApp.CleanTextEndpoint` | web_app.py:247-274 | a blank text gives `success=false`, error `400: No text provided`, the original's size and zero for the cleaned size and the changes; any other text gives exactly the success response `Cleaned`: the cleaned text, its length as `cleaned_size`, the original's size, the change count and no error |
| `WebApp.TextNoChangesIff` | web_app.py:254-265 | on POSIX, an accepted text is reported with zero changes if and only if it was already clean |
| `WebApp.TextResultIsClean` | web_app.py:254-265 | the returned text has no typographic or invisible characters left |
| `WebApp.NbspOnlyRejected` | web_app.py:251-252 | every text made only of non-breaking spaces, the empty one included, gets the blank-text rejection, although the cleaner would turn it into as many spaces: `strip` treats U+00A0 as white space |
| `WebApp.ZeroWidthOnlyAccepted` | web_app.py:251-265 | a lone zero-width space is not white space: it is accepted and cleaned to the empty text, with one change |
| `WebApp.ScenarioResponse` | web_app.py:247-265 | posting `It’s — great…` succeeds with `It's - great...`, sizes 13 and 15, and a non-zero change count |
| `WebApp.Lower` | web_app.py:282 | lower-casing keeps the length and maps each ASCII capital to its small letter |
| `WebApp.CleanFileEndpoint` | web_app.py:277-323 | a missing, empty or unlisted name raises 400 `Unsupported file type`; a failure while reading gives `success=false` with `Error processing file: ` and the message; blank contents raise 400 `File appears to be empty` |
| `WebApp.AcceptedName` | web_app.py:282-286 | a name is present, non-empty, and lower-cased ends with one of the sixteen listed extensions |
| `WebApp.FileAgreesWithText` | web_app.py:300-312 | an accepted, readable, non-blank upload gets exactly the response the text endpoint gives for its contents |
| `WebApp.NameWithoutDotRejected` | web_app.py:282-286 | every allowed extension starts with a dot, so a name without a dot is never accepted |
| `WebApp.NameCaseInsensitive` | web_app.py:282 | a name is accepted if and only if its lower-cased form is |
| `WebApp.UpperCaseExtensionAccepted` | web_app.py:282-286 | `NOTES.TXT` is accepted |

## Left out

- Opening files and the standard streams, and the encodings they use. What a read returns and whether a write succeeds are fields of `Host`, and reading an upload is a field of `Upload`. Only the newline translation of text mode is modelled (`ReadText`, `ReadStdin`, `WriteText`).
- How the batch's own writes change the file system. `Host` gives each argument's read result as the loop meets it and does not derive it from earlier writes. For example, `a.txt a.clean.txt` reads the file the first iteration just wrote, and `a.txt a.md` both write `a.clean.txt`, the second replacing the first.
- Lone surrogates. A Python `str` can hold one, for example from a JSON `\ud800` escape sent to the text endpoint; a Dafny `char` cannot. Texts are modelled as sequences of Unicode scalar values.
- The messages `main` prints and the JSON serialisation of responses. Outcomes are datatypes.
- Argument parsing by `argparse`. The argument list is given directly.
- The `unidecode` import in the script. It is never used.
- UTF-8 decoding of inputs and uploads. Both decode with replacement, which never fails, so the text is given already decoded. The endpoint's `Could not decode file as text` branch cannot be reached and is not modelled.
- `os.path.normpath`, `os.path.isabs` and `os.getcwd()`. They are fields of `PathEnv` and are not modelled further.
- `str(HTTPException)` is modelled as `"<status>: <detail>"`, the format of the framework's exception class. That class is not part of this model.
- `WebApp.Lower`: lower-cases ASCII letters only. Python lower-cases all of Unicode. Among non-ASCII characters only the Kelvin sign (to `k`) and capital I with dot above (to `i` and a combining dot) lower to ASCII letters, and no allowed extension contains `k` or `i`. So acceptance of a name is the same.
- `CleanupModule.CleanText`: an argument of another type is modelled as one opaque value `NonStr`. The lenient script variant, which has no type check, is modelled on strings only: the script only passes it strings.
- The HTML page at `/`, the `/health` endpoint, static file serving, the `preserve_formatting` request field (it is never read) and the server start-up.
- `static/app.js`, `run_web.py` and `test_web.py`: a browser front end, a launcher and a smoke test that prints results. None of them is part of this model.
