# Kaliningradka newspaper archive: crawl, download, validate, split

This project models the data pipeline that builds an image data set from the
digitised archive of the newspaper *Kaliningradskaya Pravda*. It has four stages.

1. **Crawl** (`get_image_links`). Every archive page from 1 to 12609 is loaded
   once. What the load gave becomes one or more text lines
   `page,code,url,src`, and one of three counters goes up.
2. **Download** (`download_images_from_txt`). Each selected line of that file
   is read back. The link is its last comma field. The link is matched against
   the download-link pattern, and its fields are padded into a canonical name
   `YYYY-MM-DD_NNN_PP.ext`. The line is then logged as one CSV row with
   status 1 (saved), 2 (the server answered with another code than 200) or
   3 (the link does not have the expected format).
3. **Validate** (`check_filenames`). This stage counts the file names that do
   not match the canonical-name pattern.
4. **Split** (`create_datasets`). The years are processed in ascending order.
   For each year:
   - the download log is filtered to that year and to pages 1 to 4;
   - only issues (the first ten characters of a file name) with exactly four
     rows are kept;
   - the year is skipped when fewer than three issues remain;
   - otherwise three rows are drawn, and the pages of their issues are copied
     from `raw_data` into `train`, `val` and `test`, one issue per directory
     in that order.

Python's library behaviour is written out in Dafny:

- the `re` search with its backtracking order, `re.I` and greedy `.*`;
- `str.zfill`, `str.strip`, `str.lstrip`, `str.lower` and `str.split`;
- `f`-string formatting of `None`;
- the `$` anchor, which also accepts a trailing newline.

The stages are separate modules. Each loop of the source is a method proved
against a specification function. The properties the pipeline promises are
lemmas about those functions.

| module | file | models |
|---|---|---|
| `Text` | text.dfy | character classes, `Span`, `Lower`, `ZFill`, `Strip`, `LStrip`, `Split`/`Join`, `NatToString`, `Value` |
| `UrlPattern` | url_pattern.dfy | the download-link pattern: `IsMatch` (every way of matching) and `Search` (the match Python returns) |
| `Normalizer` | normalizer.dfy | the canonical name built from a match |
| `Validator` | validator.dfy | the file-name pattern and the mismatch count |
| `Crawler` | crawler.dfy | the crawl loop, its lines and counters |
| `Downloader` | downloader.dfy | line selection, one log row per processed line, the exception that ends the run, the counters |
| `Splitter` | splitter.dfy | the yearly split; class `Datasets` holds the four directories |
| `SplitterExample` | splitter_example.dfy | a concrete year in which one issue is drawn three times |

## Model

| member | source | states |
|---|---|---|
| Crawler.GetImageLinks | src/utils/parser.py:45-98 | The nested page and image loops produce exactly the lines, counters and stop of `Crawl`, the page-by-page reference run. |
| Crawler.CrawlTally | src/utils/parser.py:49-90 | Each handled page bumps exactly one counter, so the counters add up to the number of pages. The run stops exactly when some page loaded without any `img` (the `IndexError` at `images[0]`). |
| Crawler.StepTally | src/utils/parser.py:72-89 | One more page ends the run exactly when it had ended or the page loaded without any `img`. Otherwise exactly one counter goes up by one: `timeout_failed_pages` for a timeout, `success_pages` when the first image has a `src`, `no_images_failed_pages` when it has none. |
| Crawler.CrawlAppends | src/utils/parser.py:56-90 | The file only grows: what the first k pages wrote stays its prefix, so lines appear in page order. |
| Crawler.CrashSticks | src/utils/parser.py:59-90 | After the uncaught exception, nothing more is written or counted. |
| Crawler.PageLinesReadBack | src/utils/parser.py:72-89 | When every `src` holds no comma, no line break and no trailing whitespace, read back as the downloader reads it, each line of a page gives the page, the code and the address. A timeout gives one line with code 3 and `failed`. A first image without `src` gives one line with code 2 and `failed`. Otherwise there is one code-1 line per image, in image order, carrying that image's `src`. |
| Crawler.LineReadBack | src/utils/parser.py:74-87 | Stripping and splitting a written line at commas gives back page, code, address and `src`, with their numeric values, provided the `src` has no comma and no trailing blank. |
| Crawler.PageUrlClean | src/utils/parser.py:61 | The archive address of a page contains no comma. |
| Downloader.DownloadImages | src/utils/parser.py:119-176 | The loop's rows and its stop are those of `Run`, the line-by-line reference run. Each counter is the number of rows with its status. The download directory gains exactly the names of the saved rows. |
| Downloader.ProcessLine | src/utils/parser.py:129-176 | One turn of the loop takes the log from `Run` after `i` lines to `Run` after `i + 1` lines and keeps the counters and the directory in step with the rows. |
| Downloader.Record | src/utils/parser.py:146-176 | Logging one row appends it, bumps the counter of its own status and saves its file only when its status is 1. |
| Downloader.RaisedMeans | src/utils/parser.py:146 | The run has ended by line k exactly when some processed line up to k has a link that matches and a request that raises. |
| Downloader.RaisedStops | src/utils/parser.py:146 | After the request raises, no later line adds a row. |
| Downloader.RowsAreLines | src/utils/parser.py:129-176 | Every row is the row of a processed line among those read, reached before any exception, built from that line's link and what its request did. |
| Downloader.RowsInLineOrder | src/utils/parser.py:129-176 | Row line numbers strictly increase: rows are in line order and no line has two. |
| Downloader.LinesHaveRows | src/utils/parser.py:129-176 | Every processed line that the run reaches without an exception has a row. |
| Downloader.CountsAddUp | src/utils/parser.py:150-159 | The three counters add up to the number of rows. |
| Downloader.RowMeaning | src/utils/parser.py:133-176 | A line gives no row exactly when its link matches and the request raises. A row keeps its line number and link. Its status is 3 exactly when no way of matching the pattern exists; all other cells are then empty and no request is made. Otherwise it holds the normalised date, number, page, file name and extension, with status 1 exactly when the code is 200 and 2 otherwise. |
| Downloader.RowIgnoresCase | src/utils/parser.py:133-176 | Two links that differ only in letter case give the same outcome: both raise, or both give rows that differ only in the link cell. |
| Downloader.LinkIsLastField | src/utils/parser.py:131-132 | The link has no comma. It ends the stripped line and is preceded there by a comma, unless it is the whole stripped line. |
| Downloader.CrawledLine | src/utils/parser.py:130-132 | A line the crawler writes, for a `src` with no comma, no line break and no trailing whitespace, is processed in a full run. Its link is the `src` it was written with. |
| Downloader.FailedLineRow | src/utils/parser.py:130-164 | A crawler `failed` line is not skipped. It is logged as a status-3 row with link `failed`, whatever a request would do. |
| Downloader.SavedNameChecked | src/utils/parser.py:143-197 | Every name the downloader builds has digit fields. The validator accepts it exactly when its fields are canonical. |
| UrlPattern.SearchSound | src/utils/parser.py:133 | Whatever `Search` returns is a way of matching the pattern. |
| UrlPattern.SearchIsGreedy | src/utils/parser.py:133 | When any match exists, `Search` finds one. Its marker is the last reachable marker from which the pattern matches. At that marker no match has other groups 1 to 8 or a longer group 9. A match there with a group 9 just as long has the same group 9 and `.`, and a group 10 no longer than that of `Search`. |
| UrlPattern.ParseExt | src/utils/parser.py:133 | Group 10 as read, when not empty, is a text of `\w+` or `\.\w+` at the start of the rest. No longer prefix of the rest is such a text. |
| UrlPattern.ExtLongest | src/utils/parser.py:133 | Every text of `\w+` or `\.\w+` at the start of the rest is no longer than group 10 as read. |
| UrlPattern.PageBeforeExt | src/utils/parser.py:133 | In `12.jpg`, group 9 takes `12` and group 10 `jpg`, although `1`, `.` on `2` and `.jpg` is also a match with a longer group 10: group 9's greed comes first. |
| UrlPattern.SearchAtLeast | src/utils/parser.py:133 | A reachable marker position from which the rest matches bounds the one `Search` chooses from below. At equality, `Search` is the match from that marker. |
| UrlPattern.SearchFailsIffNoMatch | src/utils/parser.py:133-134 | `re.search` fails exactly when no way of matching exists. |
| UrlPattern.MatchAtComplete | src/utils/parser.py:133 | From a marker followed by the text of any well-formed match, matching succeeds with the same groups 1 to 8 and a group 9 at least as long. With a group 9 just as long, it has the same `.` and a group 10 at least as long. |
| UrlPattern.LiteralsIgnoreCase | src/utils/parser.py:133 | Under `re.I`, two texts that differ only in letter case agree on the `http` anchor and on every marker position. |
| UrlPattern.SearchIgnoresCase | src/utils/parser.py:133 | Under `re.I`, two texts that differ only in letter case both match or both fail. Their matches have the same marker and groups 1 to 9, and their `.` and group 10 differ only in case. |
| UrlPattern.UpperMarker | src/utils/parser.py:133 | The marker as the pattern spells it, in capitals, is found, and so is `HTTP`. |
| Normalizer.NormalizeNoneIff | src/utils/parser.py:133-134 | A link has no normalised name exactly when it cannot match the pattern. |
| Normalizer.NormalizePadding | src/utils/parser.py:135-139 | The year is group 1 as written. Number, day, month and page are groups 2, 3, 4 and 9 zero-filled to 3, 2, 2 and 2 digits: same value, group text at the end, only zeros before it, longer groups unchanged. |
| Normalizer.NormalizeExtension | src/utils/parser.py:140 | The extension is group 10 lower-cased with its leading dot removed: non-empty word characters with no capital letter. |
| Normalizer.NormalizeIgnoresCase | src/utils/parser.py:133-143 | Two links that differ only in letter case get the same normalised name, or both get none. |
| Normalizer.LowerExt | src/utils/parser.py:140 | `.lower().lstrip('.')` of any text of the extension alternative `\w+|\.\w+` drops at most one leading dot and leaves no capital. |
| Text.ZFillDigits | src/utils/parser.py:136-139 | `zfill` of a digit string gives a digit string. Its length is the larger of the width and the original length, it keeps the value, and it is zeros followed by the original. |
| Text.JoinSplit | src/utils/parser.py:131 | Splitting at a separator and joining again restores the text, and no piece contains the separator. |
| Text.SplitJoin | src/utils/parser.py:131 | Joining separator-free pieces and splitting again restores the pieces. |
| Text.Strip | src/utils/parser.py:131 | `strip` returns a slice of its input with only whitespace cut on either side, and the result neither starts nor ends with whitespace. |
| Text.StripLine | src/utils/parser.py:131 | `strip` of a line whose text neither starts nor ends with whitespace removes only its newline. |
| Text.NatToString | src/utils/parser.py:74 | The decimal text of a number is a non-empty digit string with that value and no leading zero (except `0` itself), as `str(n)` writes it. |
| Validator.AcceptsMeans | src/utils/parser.py:197 | The pattern accepts a name exactly when it has the fixed layout, with an optional trailing newline for `$`. The year is 1940 to 1991, month 01 to 12, day 01 to 31, number 000 to 399, page 01 to 04, extension `jpg` or `png`. An accepted name is the canonical name of its fields. |
| Validator.NameAccepted | src/utils/parser.py:197 | For a name built from digit fields, acceptance is equivalent to the fields being canonical. |
| Validator.CheckFilenames | src/utils/parser.py:198-205 | The loop's count is `Rejected`, the number of names the pattern refuses. |
| Validator.RejectedCounts | src/utils/parser.py:198-205 | The count is the number of refused positions, at most the number of names, and 0 exactly when every name is accepted. |
| Splitter.Datasets.CopyFile | src/utils/data.py:42-44 | One `shutil.copy` fails exactly when the raw file is missing. Otherwise the target directory gains the raw content under the same name. `raw_data` is never changed. |
| Splitter.Datasets.CopyIssue | src/utils/data.py:41-44 | The pages of one issue, taken in table order by prefix, are copied one by one until a copy fails. |
| Splitter.Datasets.CopyYear | src/utils/data.py:22-44 | One year leaves the directories as its planned copies do. A year with fewer than three issues copies nothing. |
| Splitter.Datasets.CreateDatasets | src/utils/data.py:21-44 | The run leaves the directories, and its success, as the yearly plans applied in year order do, stopping at the first failed copy. `raw_data` is never changed. |
| Splitter.YearRowsFilter | src/utils/data.py:23 | A row is in a year's rows exactly when it is in the table, has that year and has a page from 1 to 4. |
| Splitter.YearRowsAppend | src/utils/data.py:23 | The year filter of two parts of the table is the filter of the first part followed by that of the second, so table order is kept. |
| Splitter.KeptMeans | src/utils/data.py:26-29 | A row is kept exactly when its issue has exactly four rows. Each issue keeps all four of its rows or none. |
| Splitter.DrawnIssuesKept | src/utils/data.py:32-37 | Each drawn issue is one of the kept issues and has exactly four rows. |
| Splitter.YearCopiesDealt | src/utils/data.py:32-40 | A year without three issues copies nothing. Otherwise the copies are those of the drawn issues, dealt to `train`, `val` and `test` in that order. |
| Splitter.DrawnIssueFourCopies | src/utils/data.py:40-44 | With file names of at least ten characters, each drawn issue yields exactly four copies into its directory. |
| Splitter.IssueCopiesExact | src/utils/data.py:41 | For a ten-character issue and names of at least ten characters, the `startswith` selection makes as many copies as there are kept rows of that issue. Each copy goes into the issue's directory and is the file of a kept row of that issue. |
| Splitter.ApplyOk | src/utils/data.py:42-44 | Copying succeeds exactly when every planned source file exists in `raw_data`. |
| Splitter.ApplyOnlyCopies | src/utils/data.py:42-44 | Copying removes nothing. Every file it adds or changes holds the raw content and was planned. |
| Splitter.ApplyCopiesAll | src/utils/data.py:42-44 | After a successful run, every planned file is present with its raw content. |
| Splitter.ApplyEachFlatten | src/utils/data.py:21-44 | Running the yearly plans one after another is running their concatenation. |
| Splitter.FlattenPrefix | src/utils/data.py:21 | The copies of earlier years come before those of later years. |
| SplitterExample.IssueMayRepeat | src/utils/data.py:37-40 | In a year with three four-page issues, a valid draw of three distinct rows can yield the same issue three times. That issue then goes to all three directories. |

## Left out

- The browser (Selenium, waits, `driver.get`) and BeautifulSoup are not modelled. What loading a page gave is an input: a timeout or the list of `src` attributes of its `img` elements.
- Other driver exceptions than `TimeoutException` are not modelled: the model has no outcome for them.
- The HTTP request is not modelled. What `requests.get` does for each line is an input: a status code, or an exception that ends the run. The image bytes are not modelled.
- A failure to write the image file or the CSV row (a full disk, a bad path) is not modelled: the model has no outcome for it.
- An exception while `response.content` streams the body of a 200 response (src/utils/parser.py:148-149) is not modelled. The file is then already created under its new name, with no CSV row. The model's `Raised` answer covers only a `requests.get` that fails before anything is written.
- `random.sample` draws are inputs: the set of line numbers for a random test run, and three distinct row positions per year.
- `time.sleep`, logging, `print` and the `verbose` progress messages are not modelled. With `verbose > 0` and `sleep_period >= 0`, as the defaults (src/utils/parser.py:45, :101) and the calls at src/utils/parser.py:209-221 pass them, they change no result. With `verbose == 0` the `%` at src/utils/parser.py:92 and :177 raises `ZeroDivisionError`, and a negative `sleep_period` makes `time.sleep` raise `ValueError`; the model has no outcome for these.
- The `UnboundLocalError` that src/utils/parser.py:182 raises for an empty link file, after the CSV header is written, is not modelled: `Downloader.DownloadImages` with no lines returns normally.
- The CSV writer, gzip and pandas' CSV reading are not modelled. The log is read as rows of year, page and file name. Missing file names, which pandas reads as NaN, are not modelled.
- The download directory is modelled as the set of file names written, not their contents.
- `os.path.exists`, `os.makedirs` and `os.listdir` are not modelled. Directories are maps from names to contents; the listing is an input sequence.
- Characters are compared as code points, with ASCII meanings for `\d`, `\w`, whitespace and `lower`. Unicode case mapping and Unicode digits are not modelled.
- UrlPattern.SearchIgnoresCase: folds ASCII letters only. Python's `re.I` also matches a few non-ASCII letters against ASCII ones, such as the Kelvin sign against `k`, and the model does not.
- `Crawler.GetImageLinks` does not model the 12609 page loads performed on a live site. Its input has exactly one outcome per page.
- `Splitter.DrawnIssuesKept` promises no distinctness of the three drawn issues, because the source does not give one. `SplitterExample.IssueMayRepeat` shows a repeated issue.
- `Splitter.DrawnIssueFourCopies` assumes file names of at least ten characters, as every name the downloader builds has. With shorter names, `startswith` and the ten-character key can disagree; that case is covered only by `Splitter.IssueCopies` itself.
- src/run.py and src/utils/misc.py (entry points, project paths, logger setup) are not part of this model.

Notes where the code and its description differ; the model follows the code:

- The file-name pattern admits years from 1940, not from 1946, and numbers from 000.
- `create_datasets` draws three rows, not three distinct issues.
- The line filter compares the whole raw line, newline included, with `failed`. So the `failed` lines the crawler writes are processed and logged with status 3 (`Downloader.FailedLineRow`).
