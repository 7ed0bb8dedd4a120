# CodeIgniter `Debug\Exceptions`, modelled in Dafny

This project models the class `CodeIgniter\Debug\Exceptions` (system/Debug/Exceptions.php).
The class is the framework's handler for uncaught exceptions, plus three display helpers.

- **The constructor** records the output-buffering level at construction (`ob_level`).
- **`exceptionHandler`**:
  - turns an empty message into `(null)`;
  - picks the view name from `display_errors`;
  - builds the template directory for the command line or for HTTP;
  - sends the status header when the context is not CLI;
  - flushes at most one excess output buffer;
  - captures what the template prints in a fresh buffer and echoes it.
- **`cleanPath`** rewrites the first matching framework directory prefix of a path to its token.
- **`describeMemory`** names a byte count in B, KB or MB.
- **`highlightFile`** renders a numbered window of highlighted source rows, marks the row at window index `$lineNumber`, if there is one, and closes the spans it counted.

The modules are:

- `PhpStrings` (php_strings.dfy) holds the PHP string semantics the class relies on:
  - `empty` on strings;
  - `str_replace` and `str_ireplace` with an array of searches (one left-to-right pass per search, no rescan, ASCII case folding);
  - `substr_count`, integer-to-string conversion, `sprintf` space padding and `str_repeat`;
  - the `<...>` tag split behind `strip_tags` and `preg_match_all('#<[^>]+>#')`.
- `OutputBuffers` (output_buffers.dfy) holds PHP's output layer:
  - the text already sent and the stack of `ob_start` buffers, as a value with the `ob_*` operations as functions;
  - a class `Output` whose methods change that state in place, together with the list of `header()` calls.
- `Debug` (debug.dfy) holds the class `Exceptions` with its constant field `obLevel`, the constructor and `ExceptionHandler`, the handler's decisions as functions, `CleanPath` and `DescribeMemory`.
- `Highlight` (highlight.dfy) holds `HighlightFile`, proved against the specification function `Excerpt`. The source's `foreach` loop is the method `WriteRows`, which `HighlightFile` calls.

The code is modelled as written. In particular:

- `$view` never chooses the template file. The file is always `error_exception.php`, and `$view` reaches the template only through the scope it shares.
- At most one buffer level is flushed.
- The `401` header line with response code 500 is sent in every non-CLI run.
- Line 243 compares the window index with the line number, and lines 247 and 254 number the rows from 0 (see Findings).

## Model

| member | source | states |
|---|---|---|
| Debug.Exceptions.constructor | system/Debug/Exceptions.php:15-18 | `obLevel` is the buffering level (`ob_get_level()`) at construction |
| Debug.NormalizeMessage | system/Debug/Exceptions.php:59-62 | the message is never `empty`; it is the one given unless that was "" or "0", which become "(null)" |
| Debug.NormalizeMessageIdempotent | system/Debug/Exceptions.php:59-62 | normalising a normalised message changes nothing |
| Debug.ViewFor | system/Debug/Exceptions.php:68-73 | the view is "exception" exactly when deleting the five disabling words from `display_errors` leaves a truthy string, and "production.html" otherwise |
| Debug.ViewFromLower | system/Debug/Exceptions.php:70 | the case-insensitive deletion decides the view as a case-sensitive deletion on the lower-cased setting does |
| Debug.ViewIgnoresCase | system/Debug/Exceptions.php:70 | the view depends on `display_errors` only up to ASCII case |
| Debug.DisablingWordSelectsProduction | system/Debug/Exceptions.php:68-73 | "off", "none", "no", "false" and "null", in any case, select "production.html" |
| Debug.EmptySettingSelectsProduction | system/Debug/Exceptions.php:68-73 | an empty setting ("" or "0") selects "production.html" |
| Debug.OnSelectsException | system/Debug/Exceptions.php:68-73 | "on", in any case, selects "exception" |
| Debug.NoRescan | system/Debug/Exceptions.php:70 | each word is deleted in one pass with no rescan, so "nnoo" keeps an "no" and selects "exception" |
| Debug.TemplatesDir | system/Debug/Exceptions.php:76-93 | the template directory is `APPPATH/views/errors/`, then `cli/` on the command line and `html/` otherwise, with nothing else in between |
| Debug.TemplateFile | system/Debug/Exceptions.php:76-101 | the included file is `APPPATH/views/errors/`, then `cli/` on the command line or `html/` otherwise, then always `error_exception.php`, whatever the view |
| Debug.TemplateFileDeterminesMode | system/Debug/Exceptions.php:85-93 | the CLI and HTTP template paths differ, so the path determines the mode |
| Debug.Exceptions.RenderPage | system/Debug/Exceptions.php:95-104 | the new buffer state is: at most one excess level flushed, then exactly the template's output echoed once at that level |
| Debug.Exceptions.ExceptionHandler | system/Debug/Exceptions.php:49-105 | the headers gain the `401`/500 status line exactly when not CLI; the buffers become the flushed state plus the page the template renders, rendered from `error_exception.php` with the handler's scope (normalised message, chosen view, template directory, class name as title) |
| Debug.CleanPath | system/Debug/Exceptions.php:133-153 | a path under none of the four directories comes back unchanged; any other result starts with one of the tokens `APPPATH/`, `BASEPATH/`, `SYSDIR/`, `FCPATH/` |
| Debug.FirstMatch | system/Debug/Exceptions.php:135-150 | reference definition: the index of the first prefix the path starts with, with none of the earlier ones matching, or None when none matches |
| Debug.CleanPathIsFirstMatch | system/Debug/Exceptions.php:133-153 | `cleanPath` replaces the first matching of APPPATH, BASEPATH, SYSDIR and FCPATH by its token and leaves other paths unchanged |
| Debug.CleanPathRestores | system/Debug/Exceptions.php:133-153 | the result starts with the matched token, and putting the directory back in its place restores the path |
| Debug.UnitOf | system/Debug/Exceptions.php:167-176 | B below 1024, KB from 1024 below 1048576, MB from 1048576, each as an if-and-only-if |
| Debug.DescribeMemory | system/Debug/Exceptions.php:165-177 | the text ends with its unit; below 1024 it is the decimal byte count then "B"; in KB and MB it is the rounded quotient by 1024 or 1048576 followed by the unit |
| Debug.DescribeMemoryExactBytes | system/Debug/Exceptions.php:167-170 | below 1024 the text is the decimal byte count (no leading zero) then "B", so its number part reads back to the same count |
| Debug.UnitMonotone | system/Debug/Exceptions.php:167-176 | more bytes never give a smaller unit |
| OutputBuffers.Buffers.Start | system/Debug/Exceptions.php:100 | `ob_start` adds one level whose buffer is empty, keeps the outer buffers as they were, and changes nothing produced |
| OutputBuffers.Buffers.Write | system/Debug/Exceptions.php:101-104 | `echo` appends its text to what has been produced, at the same level: to the innermost buffer, or straight to the client when no buffer is active; the outer buffers are untouched |
| OutputBuffers.Buffers.Top | system/Debug/Exceptions.php:102 | `ob_get_contents` is `false` exactly when no buffer is active, and otherwise the innermost buffer, which is the last text produced |
| OutputBuffers.Buffers.EndFlush | system/Debug/Exceptions.php:97 | `ob_end_flush` appends the innermost buffer to the next one out, or sends it when it is the only one, and closes it; nothing is lost or reordered, and with no buffer nothing changes |
| OutputBuffers.Buffers.EndClean | system/Debug/Exceptions.php:103 | `ob_end_clean` closes one level and discards exactly the innermost buffer's text; the sent text and the outer buffers stay as they were; with no buffer nothing changes |
| OutputBuffers.FlushExcess | system/Debug/Exceptions.php:95-98 | the flush step is one `ob_end_flush` when the level exceeds `obLevel + 1` and changes nothing otherwise, so it loses no output and lowers the level by at most one |
| OutputBuffers.CaptureRestores | system/Debug/Exceptions.php:100-103 | after `ob_start` and a write, `ob_get_contents` returns exactly what was written, and `ob_end_clean` restores the earlier state |
| OutputBuffers.PageWrittenOnce | system/Debug/Exceptions.php:95-104 | the buffer steps of the handler add the page to the produced output exactly once and end at the flushed level |
| OutputBuffers.Output.GetLevel | system/Debug/Exceptions.php:95 | `ob_get_level()` returns the current nesting level and changes nothing |
| OutputBuffers.Output.Start | system/Debug/Exceptions.php:100 | `ob_start()` applies `Buffers.Start` to the state in place |
| OutputBuffers.Output.Echo | system/Debug/Exceptions.php:104 | `echo` applies `Buffers.Write` to the state in place |
| OutputBuffers.Output.GetContents | system/Debug/Exceptions.php:102 | `ob_get_contents()` returns the innermost buffer, or `false` when none is active, and changes nothing |
| OutputBuffers.Output.EndClean | system/Debug/Exceptions.php:103 | `ob_end_clean()` reports whether a buffer was active and applies `Buffers.EndClean` to the state |
| OutputBuffers.Output.EndFlush | system/Debug/Exceptions.php:97 | `ob_end_flush` reports whether a buffer was active and applies the flush to the state |
| OutputBuffers.Output.SendHeader | system/Debug/Exceptions.php:91 | `header()` appends its line, replace flag and response code |
| Highlight.HalfRounded | system/Debug/Exceptions.php:222 | `(int)round($lines / 2)`: the integer nearest to half, with halves rounded away from zero |
| Highlight.WindowStart | system/Debug/Exceptions.php:222-223 | the window starts half a window before the line, and at row 0 exactly when the line is within the first half-window |
| Highlight.Splice | system/Debug/Exceptions.php:226 | `array_splice` returns the rows from the offset on, reindexed from 0: `length` rows at most, or up to `-length` before the end for a negative length |
| Highlight.Width | system/Debug/Exceptions.php:229 | `strlen($start + $lines)` is the number of decimal digits of the sum (plus one for a minus sign): `10^(w-1) <= sum < 10^w`, and 1 for a zero sum |
| Highlight.NumberField | system/Debug/Exceptions.php:229 | `% Nd`: the number's digits, right-justified with spaces to at least N characters |
| Highlight.CleanRow | system/Debug/Exceptions.php:241 | the row with every carriage return and newline deleted and every other character kept in order |
| Highlight.CleanRowKeepsPlain | system/Debug/Exceptions.php:235-241 | a row cut at line breaks, holding none, is left unchanged |
| Highlight.SpanDelta | system/Debug/Exceptions.php:240 | a row moves the counter by at most its length over 5 up and its length over 6 down |
| Highlight.SpanDeltaCountsTags | system/Debug/Exceptions.php:240 | the counter's change is the number of positions where `<span` starts minus those where `</span` starts |
| Highlight.SpanDeltaPlain | system/Debug/Exceptions.php:240 | a row without `<` leaves the counter unchanged |
| Highlight.ClosingCount | system/Debug/Exceptions.php:236-258 | `str_repeat` gets 1 plus the net span openings of the window, and appends nothing when that is negative |
| Highlight.ClosingCountPlain | system/Debug/Exceptions.php:236-258 | a window without markup gets exactly one closing tag |
| Highlight.HighlightedRow | system/Debug/Exceptions.php:246-250 | the marked row opens with the `line highlight` wrapper and the number field, ends with the closing `</span>` and then the row's tags, and between them has room for exactly the row's text without its tags |
| Highlight.HighlightedRowText | system/Debug/Exceptions.php:246-250 | between the number field and the closing `</span>`, the marked row holds exactly `strip_tags($row)` |
| Highlight.HighlightedRowKeepsCharacters | system/Debug/Exceptions.php:245-250 | the marked row holds every character of the source row |
| Highlight.PlainRow | system/Debug/Exceptions.php:254 | an ordinary row opens with the `line` wrapper and the number field, ends with the row as it is and a newline, and is exactly as long as those parts, so nothing stands between them |
| Highlight.OpeningsDiffer | system/Debug/Exceptions.php:246-254 | no row opened with the `line` wrapper starts with the `line highlight` wrapper |
| Highlight.HighlightedRowMarked | system/Debug/Exceptions.php:246 | a marked row carries the `line highlight` wrapper |
| Highlight.PlainRowUnmarked | system/Debug/Exceptions.php:254 | an ordinary row does not carry it |
| Highlight.RenderRowHighlighted | system/Debug/Exceptions.php:243-255 | a rendered row starts with the `line highlight` wrapper exactly when it was rendered as the marked row |
| Highlight.RenderRowNumbered | system/Debug/Exceptions.php:246-254 | a rendered row opens with its wrapper and then its number in the field |
| Highlight.RenderedRows | system/Debug/Exceptions.php:238-256 | one rendered row per window row |
| Highlight.MarkedAtWindowIndex | system/Debug/Exceptions.php:238-256 | as written, the row marked is the one whose window index equals `$lineNumber`, and no other |
| Highlight.NothingMarkedBeyondWindow | system/Debug/Exceptions.php:243 | as written, a `$lineNumber` at or past the window's row count (or negative) marks no row |
| Highlight.IntendedRows | system/Debug/Exceptions.php:243-254 | corrected rows: one per window row, window row `k` numbered `k + start + 1` |
| Highlight.IntendedRowsAt | system/Debug/Exceptions.php:243-254 | corrected row `k` is window row `k` rendered with the number `k + start + 1`, marked when that number is `$lineNumber` |
| Highlight.IntendedMarksNumberedLine | system/Debug/Exceptions.php:243 | under the corrected rule, the marked row is exactly the one numbered `$lineNumber` (file lines count from 1) |
| Highlight.IntendedShowsLine | system/Debug/Exceptions.php:222-243 | under the corrected rule, any line of the file lies in its window, holds that file row, and is marked |
| Highlight.IntendedNumberFits | system/Debug/Exceptions.php:229-254 | under the corrected rule every shown number still fits the field width `strlen($start + $lines)` |
| Highlight.MarkedRowMissesLine | system/Debug/Exceptions.php:222-243 | for line 10 of a 30-row file with 15 lines, the window starts at row 2; window row 10 (file line 13) is marked, window row 7 (file line 10) is not, and the corrected rule marks window row 7 |
| Highlight.MarkedRowMissingNearEnd | system/Debug/Exceptions.php:222-243 | for line 25 of a 30-row file, the 13-row window has no row marked, and the corrected rule marks window row 7 (file line 25) |
| Highlight.SmallNumberFields | system/Debug/Exceptions.php:229 | with start 0 and 15 lines the field is 2 wide, and 0 and 1 are shown as " 0" and " 1" |
| Highlight.FirstLineNumberedZero | system/Debug/Exceptions.php:247-254 | as written, the first line of a file is shown with the number 0 |
| Highlight.IntendedFirstLineNumberedOne | system/Debug/Exceptions.php:247-254 | under the corrected rule it is shown with the number 1, and marked |
| Highlight.NumberFieldFits | system/Debug/Exceptions.php:229-254 | for a non-negative `$lines`, each number shown in the window fills exactly the field width `strlen($start + $lines)` and ends with its own digits |
| Highlight.EarlyLineClampsStart | system/Debug/Exceptions.php:222-226 | a line in the first half-window starts the window at row 0 and shows the first `min(lines, rows)` rows |
| Highlight.ShortFile | system/Debug/Exceptions.php:222-243 | a 5-row file at line 2: start 0, all 5 rows shown, width 2, window row 2 marked |
| Highlight.WriteRows | system/Debug/Exceptions.php:236-256 | the loop's output is the concatenation of the rendered window rows, and its counter is 1 plus the net number of `<span` openings over the window |
| Highlight.Normalize | system/Debug/Exceptions.php:215 | normalised source holds no carriage return |
| Highlight.LineBreaks | system/Debug/Exceptions.php:215 | reference definition: one pass turning each `\r\n` pair into one `\n` and each lone `\r` into `\n`; the result holds no carriage return |
| Highlight.CrlfStep | system/Debug/Exceptions.php:215 | the `\r\n` replacement either takes a pair or passes one character |
| Highlight.NormalizeIsLineBreaks | system/Debug/Exceptions.php:215 | the two replacements in that order equal the one-pass reference, so a `\r\n` pair becomes one line break, not two |
| Highlight.NormalizeKeepsPlain | system/Debug/Exceptions.php:215 | source without carriage returns is left unchanged, so normalising is idempotent |
| Highlight.Excerpt | system/Debug/Exceptions.php:236-260 | the excerpt is `<pre><code>`, the rendered window rows in order, the closing tags the counter asks for, and `</code></pre>`, and is exactly as long as those parts, so nothing else is in it |
| Highlight.HighlightFile | system/Debug/Exceptions.php:191-261 | false exactly when the file name is empty, the file is unreadable, or its contents are missing or empty; otherwise the excerpt of the highlighted normalised source; `$lines` defaults to 15 |
| PhpStrings.Lower | system/Debug/Exceptions.php:70 | ASCII lower-casing keeps the length and maps each character on its own |
| PhpStrings.LowerConcat | system/Debug/Exceptions.php:70 | lower-casing distributes over concatenation |
| PhpStrings.LowerSplit | system/Debug/Exceptions.php:70 | lower-casing commutes with cutting a text at any point |
| PhpStrings.LowerIdempotent | system/Debug/Exceptions.php:70 | lower-casing twice is lower-casing once |
| PhpStrings.EmptyUnderLower | system/Debug/Exceptions.php:72 | lower-casing a text does not change whether PHP's `empty` holds for it |
| PhpStrings.Replace | system/Debug/Exceptions.php:215 | `str_replace` with one search: a replacement no longer than the search never lengthens the text, and one no shorter never shortens it |
| PhpStrings.ReplaceEach | system/Debug/Exceptions.php:215 | with an array of searches, each applied in turn; replacements no longer than every search never lengthen the text |
| PhpStrings.ReplaceChars | system/Debug/Exceptions.php:241 | every character of a replaced text comes from the subject or from the replacement |
| PhpStrings.ReplaceMissingChar | system/Debug/Exceptions.php:215 | a search holding a character the subject lacks changes nothing |
| PhpStrings.ReplaceRemovesChar | system/Debug/Exceptions.php:241 | replacing a character by text without it removes every occurrence |
| PhpStrings.ReplaceCharCons | system/Debug/Exceptions.php:215-241 | a one-character search decides on the first character, then replaces in the rest |
| PhpStrings.Without | system/Debug/Exceptions.php:241 | reference definition: the text with one character filtered out; the result is no longer and holds only other characters of the text |
| PhpStrings.WithoutAbsent | system/Debug/Exceptions.php:241 | filtering out a character the text lacks changes nothing |
| PhpStrings.ReplaceCharDeletes | system/Debug/Exceptions.php:241 | replacing one character by "" is filtering it out |
| PhpStrings.ReplaceUnderLower | system/Debug/Exceptions.php:70 | `str_ireplace` with a lower-case search, lower-cased, equals `str_replace` on the lower-cased subject |
| PhpStrings.ReplaceEachUnderLower | system/Debug/Exceptions.php:70 | `str_ireplace` with lower-case searches, lower-cased, equals `str_replace` on the lower-cased subject |
| PhpStrings.Count | system/Debug/Exceptions.php:240 | `substr_count` counts non-overlapping occurrences: count times pattern length is at most the length |
| PhpStrings.CountZeroIffAbsent | system/Debug/Exceptions.php:240 | the count is 0 exactly when the pattern occurs nowhere |
| PhpStrings.CountPrefix | system/Debug/Exceptions.php:240 | a text that begins with the pattern counts one more than the rest after it |
| PhpStrings.MatchAtTail | system/Debug/Exceptions.php:240 | a match in the text after its first character is a match one position further in the text |
| PhpStrings.AbsentFirstChar | system/Debug/Exceptions.php:240 | a pattern whose first character the text lacks occurs nowhere |
| PhpStrings.FirstCharUnique | system/Debug/Exceptions.php:240 | a pattern whose first character does not recur cannot overlap itself |
| PhpStrings.NoOverlappingMatch | system/Debug/Exceptions.php:240 | for such a pattern, two matches are never closer than its length |
| PhpStrings.PositionsSkip | system/Debug/Exceptions.php:240 | positions where the pattern does not start can be skipped when counting match positions |
| PhpStrings.CountIsPositions | system/Debug/Exceptions.php:240 | for a pattern that cannot overlap itself, `substr_count` is the number of positions where it starts |
| PhpStrings.SpanTagsSelfDisjoint | system/Debug/Exceptions.php:240 | `<span` and `</span` cannot overlap themselves |
| PhpStrings.DigitChar | system/Debug/Exceptions.php:169 | a digit value gives a decimal digit character |
| PhpStrings.NatToString | system/Debug/Exceptions.php:169 | the decimal text of a natural number is non-empty, all digits, and has no leading zero; zero is "0" |
| PhpStrings.IntToString | system/Debug/Exceptions.php:229 | the decimal text of an integer is a valid decimal, with a minus sign for a negative one and no leading zero; zero is "0" |
| PhpStrings.NatToStringDigits | system/Debug/Exceptions.php:229 | the length of the decimal text is the digit count: `10^(len-1) <= n < 10^len`, and 1 for zero |
| PhpStrings.NatToStringLengthMonotone | system/Debug/Exceptions.php:229 | a larger number never has a shorter decimal text |
| PhpStrings.ParseNatToString | system/Debug/Exceptions.php:169 | the decimal text of a natural number reads back to it |
| PhpStrings.IntToStringRoundTrip | system/Debug/Exceptions.php:169 | the decimal text of an integer reads back to that integer |
| PhpStrings.Repeat | system/Debug/Exceptions.php:258 | `str_repeat($s, $n)` is `n` copies of `s` back to back (`Copies`), so it is `n` times as long |
| PhpStrings.PadLeft | system/Debug/Exceptions.php:229 | `% Nd` padding: the result is `max(N, len)` long, ends with the digits and is spaces before them |
| PhpStrings.ConcatPrefix | system/Debug/Exceptions.php:238-256 | joining one more part appends it |
| PhpStrings.CloseIndex | system/Debug/Exceptions.php:245 | the index of the first `>`, with none before it |
| PhpStrings.Pieces | system/Debug/Exceptions.php:245 | every piece cut as a tag has the form `<[^>]+>` |
| PhpStrings.CloseIndexAt | system/Debug/Exceptions.php:245 | the first `>` of a text is found at its index |
| PhpStrings.TagCut | system/Debug/Exceptions.php:245 | a segment of the form `<[^>]+>` at the front of a row is always cut out as one tag |
| PhpStrings.StripTagsTag | system/Debug/Exceptions.php:245-249 | `strip_tags` drops a leading tag, and the collected tags start with it |
| PhpStrings.StripTagsText | system/Debug/Exceptions.php:245-249 | a character that starts no tag stays in the stripped text and adds no tag |
| PhpStrings.PiecesRoundTrip | system/Debug/Exceptions.php:245 | splitting a row into text characters and `<...>` tags and joining them gives the row back |
| PhpStrings.TextsAndTags | system/Debug/Exceptions.php:245-249 | the text characters and the tags of a cut row together hold the characters of the row |
| PhpStrings.StripTagsPartition | system/Debug/Exceptions.php:245-249 | `strip_tags` of the row and its re-appended tags hold exactly the row's characters |
| PhpStrings.StripTagsPlain | system/Debug/Exceptions.php:248-249 | a row without `<` keeps all its text under `strip_tags` and has no tags |

## Left out

- `initialize` (`set_exception_handler`) and `shutdownHandler` (`die`) are not modelled: they register callbacks with the runtime or end the process.
- The `ini_set` colour settings of `highlightFile` are left out. They only affect what `highlight_string` produces.
- `highlight_string` and the unwrapping of its output (lines 216-219) are a parameter mapping normalised source to rows. The file system is one too: `is_readable` is a boolean and `file_get_contents` an optional string.
- The included template is a parameter `render(path, scope)` giving the text it prints. Exceptions thrown inside the template are not modelled.
- `ini_get('display_errors')` and `is_cli()` are parameters, and so are the path constants and `DIRECTORY_SEPARATOR`.
- Trace frames are opaque strings. The handler only passes them on.
- Debug.DescribeMemory: the KB and MB numbers come from the float expression `round($bytes / d, 2)`, a parameter `scaled`. Only the unit choice, the divisor and the exact B branch are modelled.
- `strip_tags` is modelled as removing the `<...>` segments that `preg_match_all('#<[^>]+>#')` finds. PHP's handling of comments, quotes and an unclosed `<` is not modelled.
- `str_repeat` with a negative `$spans` warns and appends nothing; the model appends nothing.
- `header()` after output has been sent (a warning in PHP) is not modelled. The header is recorded unconditionally.
- Debug.CleanPath: the four path constants are assumed non-empty, because they are directory paths. PHP 7's `strpos` with an empty needle is not modelled.
- The rows are not claimed to be balanced HTML. Each ordinary row leaves its `line` span open, and the number of closing tags is exactly the counter.
- One `char` stands for one byte. PHP strings are byte strings, and every operation modelled here works on them byte by byte.
- `$start + $lines` at line 229 is an unbounded integer. PHP turns an `int` sum past `PHP_INT_MAX` into a float, and that is not modelled.
- `PhpStrings.IsEmpty` (`empty`), `PhpStrings.StartsWith` (`strpos(...) === 0`), `PhpStrings.Concat` (`implode('')` and repeated `.=`), `StripTags`, `Tags`, `Unavailable`, `SpanBalance`, `Debug.StripDisabling`, `Debug.HandlerScope`, `Highlight.RenderRow`, `Highlight.HighlightHead` and `Highlight.HighlightTail` are definitions without contracts of their own. Their properties are the lemmas, functions and methods about them: `NormalizeMessage`, `CleanPath`, `ConcatPrefix`, `StripTagsPartition`, `StripTagsPlain`, `StripTagsTag`, `StripTagsText`, `ViewFor` and its lemmas, `Exceptions.ExceptionHandler`, `HighlightedRow`, `PlainRow`, `Excerpt`, `HighlightFile` and `WriteRows`.
- Debug.Exceptions.ExceptionHandler: `$view` is in the template's scope but never chooses the file. The model states this and nothing more about how the template uses it.
- The template can also reach the handler object through `$this`. `Scope` holds only the handler's local variables, so `render` does not see the object.
- Debug.Exceptions.RenderPage: this is lines 95-104 of the handler split off as a method of its own. The handler calls it once, at the point where those lines run.

## Findings

| source | as written | input that shows it | evidently intended | confidence | as-written member | corrected member |
|---|---|---|---|---|---|---|
| system/Debug/Exceptions.php:243 | `$n == $lineNumber` compares the window index (rows are reindexed from 0 by `array_splice`) with the file line (counted from 1) | a 30-row file, line 10, 15 lines: the window starts at row 2; window row 10 (file line 13) is marked and window row 7 (file line 10) is plain. Line 25 of the same file marks no row | mark the row holding file line `$lineNumber`, i.e. `$n + $start + 1 == $lineNumber` | not executed | Highlight.MarkedRowMissesLine | Highlight.IntendedMarksNumberedLine |
| system/Debug/Exceptions.php:247-254 | the row is shown with the number `$n + $start`, its 0-based row index in the file | any file of at least 2 rows, line 1: its first line is shown as " 0" | show the file line, `$n + $start + 1` | not executed | Highlight.FirstLineNumberedZero | Highlight.IntendedFirstLineNumberedOne |

`HighlightFile` keeps both rules as written, since it models the code. `IntendedRows` is the corrected rendering of the window, and `IntendedShowsLine` proves that under it every line of the file is shown and marked in its own window.
