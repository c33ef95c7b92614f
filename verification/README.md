# JHU course-evaluation pipeline in Dafny

This project models the decision and transformation logic of a small
pipeline that collects Johns Hopkins course evaluations and turns them into
dashboard data:

- **Crawler** (`eval_crawler.py`). It walks the public evaluation site one
  course-number prefix at a time (`AS.000` … `EN.999`). It collects the PDF
  links on page 1 and on the JSON pages 3, 4, …, skips report ids it has
  already seen, and downloads each new report. Downloads repair the site's
  poisoned `wwww.` redirect, retry transient failures with exponential
  back-off, and follow the JavaScript redirect some report pages use.
- **Extractor** (`extract.py`). It reads a report's text and finds the
  course code and name, instructor, year and term. It splits the text into
  numbered question blocks, keeps each question's `(weight, count)`
  histogram with the first block winning for a repeated title, and takes
  the respondent count from the file name. A watch loop appends one row per
  new PDF and deletes the PDF.
- **Preprocessing and dashboard helpers** (`course_dashboard/…`).
  - Histograms collapse into a count and a weighted mean, in two slightly
    different ways.
  - Terms map to months, ranks and fractions of a year, and timeline keys
    are `YYYY-MM-01`.
  - Instructor names are cleaned, and the department key and course level
    come from the course code.
  - Recommendations keep groups with at least five respondents, ordered by
    teaching score and then challenge score.

Outside effects become parameters:
- the HTTP server and its outcomes per attempt;
- the site's listing pages, as records of anchors plus a `more` flag;
- the PDF text;
- whether the output file already exists;
- `urljoin`;
- whether `pd.to_datetime` accepts a date.

Sleeps are recorded rather than performed. Regular expressions are
hand-written scanners with the same first-match behaviour. Python dicts are
association lists that keep insertion order. Missing values (`None`, `NaN`,
`NaT`) are `Option`s. Floating-point values are `real`s. The means are
integer sums divided once, and the model takes the exact quotient where
Python rounds it to a float. `summarize_trend` subtracts two such means and compares the
difference with 0.1, and there the rounding of the float subtraction is not
modelled (see `Trend.Classify` under "## Left out").

Modules, one per component:
- `Wrappers`, `Text`, `Scan`, `Assoc` and `StringOrder` are shared helpers:
  - `Option`/`Result`;
  - character classes, `strip`, `split`, `replace`, `title` and `upper`;
  - digit scanning;
  - dictionaries;
  - Python string ordering and `sorted(set(...))`.
- `Extract`, `Layouts` and `Watch` cover `extract.py`. `Layouts` renders
  the report layout and proves each scanner reads its own rendering back.
- `Http`, `Prefixes`, `Links`, `Download` and `Crawl` cover `eval_crawler.py`.
- `Histogram` covers `preprocess.py` and `compute_weighted_avg`.
- `Trend` covers `parse_term` and `summarize_trend`.
- `Analytics` covers the term tables, `clean_instructor`, `all_term_dates`,
  `month_frac` and the department key.
- `Recommend` covers `rec.py`.

In the watch loop, `processed.add` comes after `pdf_file.unlink()` inside
the same `try`. A failed delete therefore leaves the name unprocessed, and
the next poll appends the row a second time
(`Watch.FailedDeleteAppendsTwice`).

## Model

| member | source | states |
|---|---|---|
| Extract.LazyGroup | extract.py:8 | The lazy `[^\n]+?` group ends at the first position followed by optional spaces and the mark (`Instructor` here). It returns None exactly when no such position exists on the line. |
| Extract.InstructorAt | extract.py:8 | An instructor is found iff some position after a newline matches. The value is the stripped text up to the first match. |
| Extract.CourseAt | extract.py:9 | A match starts with `Course:` and yields a non-empty code made only of `[A-Z0-9.]` characters and a one-line name. |
| Extract.TermWordAt | extract.py:10 | Only Spring, Fall, Summer or Intersession is accepted, and Winter never is. |
| Extract.TermAt | extract.py:10 | A match is exactly four digits, at least one space, then a term word. The year is those four digits. |
| Extract.TruncateCode | extract.py:15-17 | A code with three or more dot segments becomes its first three; a shorter code is unchanged. The result is a prefix of the code and has at most three segments. |
| Extract.TruncateCodeIdempotent | extract.py:15-17 | Truncating twice is truncating once. |
| Extract.CourseFields | extract.py:12-19 | Number and name are both set or both None. They are set iff `Course:` matches somewhere, and the number then has at most three segments. |
| Extract.TermFields | extract.py:25-26 | Year and term are both set or both None. The year is four digits and the term is one of the four names. |
| Extract.ExtractMetadata | extract.py:7-27 | The five metadata fields, with the pairing, format and presence guarantees of the three searches. |
| Extract.QuestionTitle | extract.py:30-31 | It fails iff the block is all whitespace. Otherwise the title is a non-empty line that starts the stripped block. |
| Extract.PairAt | extract.py:33 | A match gives a weight in 0..9 and a non-negative count, and consumes at least one character. |
| Extract.PairsIn | extract.py:33 | Every pair found has weight 0..9 and count at least 0. |
| Extract.TextRespondentsAt | extract.py:35-36 | The count is the value of the leading digit run. |
| Extract.PrintedRespondents | extract.py:35-36 | The count of the first `n/m (p%)` match in the block, and 0 when no position matches. A positive count is the count of some match. |
| Extract.QuestionData | extract.py:29-42 | It fails exactly when the title fails. The title and the pair bounds are carried over. |
| Extract.FilenameCountAt | extract.py:45 | The count is the value of the leading digit run of an `N of M responded` phrase. |
| Extract.FilenameRespondents | extract.py:44-46 | The result is the count of the first (leftmost) phrase match, and 0 when no position matches. A positive result is the count of some match. |
| Extract.DelimAt | extract.py:53 | A delimiter is a newline, digits, then optional spaces, a dash and optional spaces. |
| Extract.SplitBlocks | extract.py:53 | `re.split` always returns at least one piece. |
| Extract.SplitBlocksAtMatch | extract.py:53 | At the leftmost delimiter match, the first piece is the text before it, and the remaining pieces are the split of the text after it. |
| Extract.SplitBlocksNoMatch | extract.py:53 | Text without a delimiter match is a single piece, the text itself. |
| Extract.ParseBlocks | extract.py:58-59 | It fails iff some block fails. Otherwise it has one question per block, in order. |
| Extract.Collect | extract.py:58-64 | The title dictionary keeps distinct keys, extends the input dictionary, and stores only non-empty histograms. |
| Extract.CollectFirstWins | extract.py:60-64 | A title keeps the histogram of its first block with pairs; later repeats are ignored. |
| Extract.BaseRow | extract.py:66-74 | The row's keys are the seven fixed keys, in order. |
| Extract.Update | extract.py:75 | `row.update` keeps existing keys in place and keys stay distinct. |
| Extract.UpdateGet | extract.py:75 | After the update, every dictionary key maps to that key's histogram. |
| Extract.UpdateNewKeys | extract.py:75 | Appended columns come from the dictionary and were not in the row. |
| Extract.MaxOrZero | extract.py:73 | The maximum of a list, or 0 when the list is empty. |
| Extract.ParseFailsOnBlank | extract.py:53-59 | Processing raises iff some block after the first delimiter is blank. |
| Extract.AssembleRow | extract.py:66-77 | The fixed keys come first and keys are distinct. `num_respondents` is the count passed in. |
| Extract.ProcessPdf | extract.py:48-78 | It raises iff a block is blank. The row starts with the seven fixed keys, and `num_respondents` is the file-name count. |
| Extract.ProcessPdfColumn | extract.py:66-75 | Each column other than `num_respondents` holds the first question histogram with that title, else the metadata cell. |
| Extract.AssembleRowExtraColumns | extract.py:75 | Every column after the seventh is a question title holding a list. |
| Extract.MetaCheckFrom | extract.py:81-84 | The first loop returns False at the first metadata column that is falsy or missing. It passes iff every remaining metadata cell is truthy. |
| Extract.ListCheckFrom | extract.py:86-91 | The second loop skips the metadata, `file` and `num_respondents` columns. It passes iff every other remaining column holds a list. |
| Extract.IsRowComplete | extract.py:80-93 | The two loops with their early returns accept a row exactly when the five metadata cells are truthy (a missing column reads as None) and every column other than those, `file` and `num_respondents` holds a list. |
| Extract.AssembleRowCompleteIff | extract.py:80-93 | `is_row_complete` holds iff the five metadata cells are truthy. |
| Extract.ProcessPdfCompleteIff | extract.py:80-93 | The same equivalence holds for a processed report. |
| Extract.AssembleRowMetaCell | extract.py:66-75 | A metadata cell holds its field unless a question title overwrote it. |
| Extract.AssembleRowCompleteMetadata | extract.py:80-93 | Without overwriting titles, completeness is exactly "every metadata field is non-empty". |
| Extract.ProcessPdfCompleteMetadata | extract.py:80-93 | When no question block is titled like a metadata column, a report row is complete iff the course number and year/term were found and the course name and instructor were found non-blank. |
| Extract.MetadataFilled | extract.py:80-84 | For extracted metadata, the five truthiness tests reduce to four presence facts. |
| Extract.ProcessPdfDropsPrintedCounts | extract.py:73-77 | As written: a file name without digits gives 0 respondents, whatever the printed per-question counts say. |
| Extract.PrintedCounts | extract.py:35-36 | It holds the printed respondent counts of exactly the questions that have pairs. |
| Extract.IntendedRespondents | extract.py:73-77 | The file-name count when positive. Otherwise the largest printed count, which is some question's count. |
| Extract.ProcessPdfIntended | extract.py:48-78 | The corrected row: the same error condition and fixed keys, with `num_respondents` from IntendedRespondents. |
| Extract.ProcessPdfIntendedAgrees | extract.py:66-77 | The corrected and the as-written rows succeed together and agree on every other key. |
| Extract.AssembleRowOther | extract.py:76-77 | The respondent count changes no other cell. |
| Layouts.PairAtLine | extract.py:33 | A rendered `(w) count pp.pp%` line scans back to its `(weight, count)`. |
| Layouts.PairsInRowLines | extract.py:33 | A rendered histogram scans back to all its pairs, in text order. |
| Layouts.TextRespondentsAtCount | extract.py:35-36 | A rendered `n/m (p%)` reads back as `n`. |
| Layouts.PrintedRespondentsOfCount | extract.py:35-36 | The first such phrase in a block gives that block's printed count. |
| Layouts.FilenameCountAtPhrase | extract.py:45 | A rendered `n of m responded` reads back as `n`. |
| Layouts.FilenameRespondentsOfPhrase | extract.py:44-46 | A file name whose first digits start that phrase gives `n`. |
| Layouts.TermAtLine | extract.py:10 | `YYYY Term` scans back to its year and term. |
| Layouts.NameAtLine | extract.py:9 | A one-line name with no edge spaces scans back to itself. |
| Layouts.CourseAtLine | extract.py:9 | `Course: CODE : Name` scans back to its code and name. |
| Layouts.DelimAtDelim | extract.py:53 | A rendered `\nk - ` delimiter is recognised with its full length. |
| Layouts.SplitBlocksDelim | extract.py:53 | Text before a delimiter becomes its own block. |
| Layouts.SplitBlocksSections | extract.py:53 | A header followed by numbered one-line questions splits back into the header and the questions. |
| Watch.Listed | extract.py:113-114 | A listed PDF has a row iff its text was read and has no blank block. The row is the one `process_pdf` returns as written, so its `num_respondents` is the file-name count. |
| Watch.ListedDropsPrintedCounts | extract.py:73-77 | With a file name without digits, the loop stores a count of 0, whatever the report prints. |
| Watch.ListedIntended | extract.py:113-114 | With the corrected extractor, a listed PDF has a row under the same condition, and the row is the corrected row. |
| Watch.ListedIntendedAgrees | extract.py:66-77 | The corrected extractor gives rows to the same files, and they agree with the stored rows on every column except `num_respondents`. |
| Watch.HandleFile | extract.py:108-120 | `processed` and the store only grow. A name is newly processed iff extraction, append and delete all succeed. A failed extraction or append leaves everything unchanged. |
| Watch.Tick | extract.py:108-120 | One poll never shrinks `processed` or the store. |
| Watch.TickRecordsOnlySuccesses | extract.py:113-117 | A name newly processed in a poll belongs to a listed file whose every step succeeded. |
| Watch.IncompleteRowsAreStored | extract.py:113-117 | An incomplete row is appended anyway, because `is_row_complete` is never consulted. |
| Watch.FailedDeleteAppendsTwice | extract.py:113-120 | When the delete fails, the name stays unprocessed and the next poll appends the row again. |
| Http.RaiseForStatus | eval_crawler.py:33 | It raises `HTTPError(status)` exactly for 4xx and 5xx statuses, and otherwise returns the response. |
| Http.SafeGet | eval_crawler.py:29-33 | A second request happens iff the first is a redirect to the poisoned host, and then goes to the repaired location. The result is the last response after `raise_for_status`. |
| Http.SafeGetKeepsOtherRedirects | eval_crawler.py:31 | Any other redirect is returned unfollowed. |
| Http.RetryFrom | eval_crawler.py:39-50 | The attempt count stays within `N_RETRY`. The sleep after attempt k follows a retryable failure of attempt k and lasts `BACKOFF·2^(k-1)`, so each sleep doubles the previous one. |
| Http.SafeGetRetry | eval_crawler.py:35-52 | At most 4 attempts. Sleeps are `1·2^i` and each follows a retryable outcome. A retryable final result means every attempt was used. |
| Http.RetryStopsAtFirstFinal | eval_crawler.py:39-47 | The result is the first non-retryable outcome, after exactly one fewer sleeps than attempts. |
| Http.RetryThreeUnavailable | eval_crawler.py:46-50 | Three 503s and then a success sleep 1, 2 and 4 seconds. |
| Http.RetryNotFound | eval_crawler.py:46-47 | A 404 stops at once, with no sleep. |
| Http.RetryGivesUp | eval_crawler.py:51-52 | Four connection errors re-raise the last one after three sleeps. |
| Prefixes.Pad3 | eval_crawler.py:119 | `n:03d` is three digits. |
| Prefixes.Pad3Value | eval_crawler.py:119 | The three digits read back as `n`. |
| Prefixes.Pad3OfDigits | eval_crawler.py:119 | Every three-digit string is the padding of its value. |
| Prefixes.Pad3Injective | eval_crawler.py:119 | Different numbers pad differently. |
| Prefixes.StemPrefixes | eval_crawler.py:128-131 | A stem yields 1000 prefixes, `STEM.000` to `STEM.999`, in order. |
| Prefixes.AllPrefixes | eval_crawler.py:115-120 | 2000 well-formed prefixes: the AS block, then the EN block. |
| Prefixes.AllPrefixesAt | eval_crawler.py:115-120 | Position `1000·b + n` holds stem `b` and number `n`. |
| Prefixes.AllPrefixesDistinct | eval_crawler.py:115-120 | No prefix is produced twice. |
| Prefixes.AllPrefixesComplete | eval_crawler.py:115-120 | Every well-formed prefix is produced. |
| Prefixes.MatchPrefix | eval_crawler.py:112 | A match is a bare stem, or a stem with `.` and three digits. |
| Prefixes.MatchPrefixAccepts | eval_crawler.py:112 | The pattern accepts exactly `AS`, `EN` and the well-formed prefixes. |
| Prefixes.MakePrefixIter | eval_crawler.py:114-133 | No argument gives all prefixes. An argument fails iff its stripped, upper-cased form does not match. |
| Prefixes.MakePrefixIterFull | eval_crawler.py:132-133 | A full prefix yields exactly itself, normalised. |
| Prefixes.MakePrefixIterStem | eval_crawler.py:127-131 | A stem yields its own 1000-prefix block. |
| Prefixes.MakePrefixIterWithinAll | eval_crawler.py:114-133 | Every prefix yielded is one of the 2000. |
| Links.Sanitize | eval_crawler.py:85 | The length is kept. A `[\w\- ]` character is kept and any other becomes `_`. |
| Links.SanitizeIdempotent | eval_crawler.py:85 | Sanitising twice is sanitising once. |
| Links.SanitizeKeepsClean | eval_crawler.py:85 | A clean title is unchanged. |
| Links.FileName | eval_crawler.py:85 | The file name is the sanitised title followed by `.pdf`. |
| Links.PdfUrl | eval_crawler.py:81-82 | The URL is exactly the report endpoint, one `?` and the anchor's four comma-joined ids, and the key read back from it after the first `?` is those ids. |
| Links.ExtractPdfs | eval_crawler.py:77-87 | One `(url, fname)` per anchor, in document order. |
| Links.RequestId | eval_crawler.py:150 | `url.split("?", 1)[1]` exists iff the URL has a `?`, and is the text after the first one. |
| Links.RequestIdAfter | eval_crawler.py:150 | The key is the text after a `?`-free head. |
| Links.IdsInjective | eval_crawler.py:81-82 | Comma-free ids are recovered from the key. |
| Download.FindRedirect | eval_crawler.py:93 | The group at the leftmost redirect match. It is None iff no position matches. |
| Download.RedirectAt | eval_crawler.py:93 | A match starts at `document.location.href` and yields a non-empty, one-line target. |
| Download.RedirectAtScript | eval_crawler.py:93 | A rendered `document.location.href = "target"` yields its target. |
| Download.FindRedirectOfPage | eval_crawler.py:93 | The search finds the script's target inside a page. |
| Download.Finish | eval_crawler.py:99-105 | Content is written iff the response is a PDF, and then it is the response body. |
| Download.SavePdf | eval_crawler.py:89-105 | An existing file means no request. An HTML page with a redirect means a second request to the joined URL, and without one nothing is written. Errors propagate. |
| Download.WrittenOnlyPdf | eval_crawler.py:99-105 | Whatever is written came from a PDF response. |
| Crawl.KeyOfUrl | eval_crawler.py:150 | The dedup key computed from the URL is the anchor's joined ids. |
| Crawl.Start | eval_crawler.py:142 | The empty state satisfies the crawl invariant. |
| Crawl.Visit | eval_crawler.py:149-157 | A new key is added to `seen` once and saved only when live. A seen key changes nothing. |
| Crawl.VisitGood | eval_crawler.py:149-157 | Visiting an anchor keeps the invariant: `seen` equals the added keys, with no repeats, and there is one save per key when live. |
| Crawl.Rows | eval_crawler.py:149-158 | After a page, `seen` is the old set plus the page's keys. |
| Crawl.RowsGood | eval_crawler.py:149-158 | A page's rows keep the invariant. |
| Crawl.RowsSkipSeen | eval_crawler.py:151-152 | A page of seen keys changes nothing. |
| Crawl.ApiLogFetched | eval_crawler.py:160-182 | API pages are fetched from page 3 on, consecutively. Every page before the last fetched was full and had `more`. |
| Crawl.ApiLogSleeps | eval_crawler.py:180-183 | There is a sleep after a fetched page iff that page was full. |
| Crawl.ApiPages | eval_crawler.py:160-183 | The walk's fetches and sleeps are exactly the pagination log. |
| Crawl.ApiPagesGood | eval_crawler.py:160-183 | The API walk keeps the invariant. |
| Crawl.Prefix | eval_crawler.py:143-183 | A prefix's walk only extends the state. |
| Crawl.PrefixFetched | eval_crawler.py:144-183 | Page 1 comes first, then pages 3, 4, … consecutively. None follow when page 1 has no `more`. |
| Crawl.PrefixGood | eval_crawler.py:143-183 | A prefix's walk keeps the invariant. |
| Crawl.Crawl | eval_crawler.py:135-183 | The whole crawl only extends the state. |
| Crawl.CrawlGood | eval_crawler.py:135-183 | The whole crawl keeps the invariant. |
| Crawl.CrawlSavesEachKeyOnce | eval_crawler.py:142-177 | A live crawl downloads each report id at most once, across all prefixes. A dry run downloads nothing. |
| Histogram.Counts | course_dashboard/preprocess.py:20 | The dict comprehension has distinct weights, none of them 0, and each entry is an input pair. |
| Histogram.CountsLastWins | course_dashboard/preprocess.py:20 | A repeated weight keeps its last count, and weight 0 is absent. |
| Histogram.ParseHistStats | course_dashboard/preprocess.py:16-23 | A missing cell gives `(0, NaN)`. The mean is present iff `n ≠ 0`. |
| Histogram.HistMeanWithin | course_dashboard/preprocess.py:21-22 | With non-negative counts, `n ≥ 0` and the mean lies within the score range. |
| Histogram.ProcessPdfQuestionRow | course_dashboard/preprocess.py:14 | Every extracted row has the seven fixed columns followed by list columns. |
| Histogram.QuestionRowHistCols | course_dashboard/preprocess.py:14 | `columns[7:]` are exactly the question columns, none of them a fixed key. |
| Histogram.ReadHist | course_dashboard/preprocess.py:19 | All cells parse iff each is a histogram or missing. Otherwise it fails at the first bad column. |
| Histogram.HistStats | course_dashboard/preprocess.py:25-28 | Each histogram column keeps its name and gets the `(n, mean)` that `parse_hist_stats` gives its cell. |
| Histogram.StatFieldsAt | course_dashboard/preprocess.py:25-28 | Histogram column k becomes the two columns `<col>_n` and `<col>_mean` at positions 2k and 2k+1 of the statistics part. |
| Histogram.PreprocessRow | course_dashboard/preprocess.py:25-30 | It fails iff a column after the seventh is not a histogram. Otherwise the first seven cells are kept and each histogram is replaced by `_n` and `_mean`. |
| Histogram.PreprocessRowSucceeds | course_dashboard/preprocess.py:25-30 | An extracted row always preprocesses, keeping the fixed keys. |
| Histogram.PreprocessRowAt | course_dashboard/preprocess.py:25-30 | Column `i` becomes the `_n`/`_mean` pair at positions `2i-7` and `2i-6`, holding `parse_hist_stats` of that column's histogram. |
| Histogram.NonZero | course_dashboard/app/routes/helper.py:26-27 | Only pairs with a non-zero score remain. |
| Histogram.WeightedAvg | course_dashboard/app/routes/helper.py:23-30 | A result exists only for a parsed cell with a positive non-zero-score total. |
| Histogram.WeightedAvgWithin | course_dashboard/app/routes/helper.py:26-28 | It is None iff that total is 0. Otherwise it lies between the smallest and largest score. |
| Histogram.CountsOfDistinct | course_dashboard/preprocess.py:20 | Without repeated weights, the dict is just the non-zero pairs. |
| Histogram.HistStatsAgree | course_dashboard/preprocess.py:20-23 | Without repeated weights, both collapses give the same `n` and mean. |
| Histogram.HistStatsRepeatedScore | course_dashboard/app/routes/helper.py:26-28 | With a repeated score they differ: `(4, 4.0)` against `4.2`. |
| Trend.MonthOf | course_dashboard/app/routes/helper.py:36-37 | Summer gives 6, Fall gives 9, and anything else gives 1. |
| Trend.ParseTerm | course_dashboard/app/routes/helper.py:32-42 | A missing input gives `(NaT, "Unknown")`. Otherwise there is a date iff the date parses, with the label `"<term> <year>"`. |
| Trend.ParseTermOrder | course_dashboard/app/routes/helper.py:36-39 | An earlier year, or an earlier term in the same year, gives an earlier date. |
| Trend.ParseTermLabel | course_dashboard/app/routes/helper.py:35-40 | Two parsed dates with the same label have the same stripped term and the same year. |
| Trend.Valid | course_dashboard/app/routes/helper.py:46 | Every kept point comes from a zipped position where both values are present. |
| Trend.ValidKeeps | course_dashboard/app/routes/helper.py:46 | Every position where both are present is kept. |
| Trend.ValidSplit | course_dashboard/app/routes/helper.py:46 | The pairing splits at any position both lists reach, so kept points follow input order, one per complete position. |
| Trend.SortByDate | course_dashboard/app/routes/helper.py:49 | The sort keeps the number of points. |
| Trend.SortByDateSorts | course_dashboard/app/routes/helper.py:49 | The sort orders by date and is a permutation. |
| Trend.SortByDateFirst | course_dashboard/app/routes/helper.py:49-50 | The first sorted point is the earliest date, the first among ties. |
| Trend.SortByDateLast | course_dashboard/app/routes/helper.py:49-50 | The last sorted point is the latest date, the last among ties. |
| Trend.Classify | course_dashboard/app/routes/helper.py:51-54 | `abs(delta) < 0.1` means the same, `delta ≥ 0.1` improved and `delta ≤ -0.1` declined. |
| Trend.SummaryText | course_dashboard/app/routes/helper.py:48-54 | Each verdict has its own text: each of the four strings is returned for exactly one verdict. |
| Trend.TrendOf | course_dashboard/app/routes/helper.py:47-54 | "Not enough data" iff fewer than two points. |
| Trend.SummarizeTrend | course_dashboard/app/routes/helper.py:45-54 | "Not enough data" iff fewer than two complete pairs. |
| Trend.SortByDateEnds | course_dashboard/app/routes/helper.py:49-50 | The sorted ends are the earliest-first and latest-last points. |
| Trend.TrendOfEnds | course_dashboard/app/routes/helper.py:49-54 | The trend compares the score at the earliest date with the score at the latest. |
| Trend.SummarizeTrendEnds | course_dashboard/app/routes/helper.py:45-54 | The same holds for the zipped score and date columns. |
| Trend.TrendOfSameDate | course_dashboard/app/routes/helper.py:49-50 | Points with equal dates keep their order, because the sort is stable. |
| Trend.SummarizeTrendSameDate | course_dashboard/app/routes/helper.py:45-54 | With one date, 3 then 4 improves and 4 then 3 declines. |
| Analytics.Position | course_dashboard/app/routes/analytics.py:37 | The index of the first occurrence, or the length when the item is absent. |
| Analytics.TermRank | course_dashboard/app/routes/analytics.py:48-50 | The rank is at most 5. It is below 5 iff the normalised term is known, and the term sits at that rank. |
| Analytics.TermRankTable | course_dashboard/app/routes/analytics.py:36-37 | Intersession, Spring, Summer, Fall and Winter rank 0 to 4. |
| Analytics.TermRankLoose | course_dashboard/app/routes/analytics.py:50 | Surrounding spaces and any letter case give the term's rank. |
| Analytics.TermRankPaddedLower | course_dashboard/app/routes/analytics.py:50 | `" fall "` ranks as Fall. |
| Analytics.TermToFrac | course_dashboard/app/routes/analytics.py:53-55 | The fraction lies in [0, 1] and is below 1 iff the term is known. |
| Analytics.MonthFor | course_dashboard/app/routes/analytics.py:86 | A two-digit month, `"01"` for unknown terms. |
| Analytics.MonthTable | course_dashboard/app/routes/analytics.py:38-44 | The month table's keys are TERM_ORDER, and its months are distinct two-digit codes. |
| Analytics.MonthForTerm | course_dashboard/app/routes/analytics.py:38-44 | A known term maps to its table month. |
| Analytics.FracForMonth | course_dashboard/app/routes/analytics.py:45-46 | Each term's month maps to rank/5. |
| Analytics.MonthFrac | course_dashboard/app/routes/analytics.py:92-93 | The fraction lies in [0, 1). |
| Analytics.DateKey | course_dashboard/app/routes/analytics.py:84-86 | The key reads back: the text before the last six characters converts to the year, and the two characters after the first dash of that tail are the term's month code. |
| Analytics.DateKeyMonth | course_dashboard/app/routes/analytics.py:84-86 | A four-digit year puts the term's month at characters 5 and 6. |
| Analytics.MonthFracOfDateKey | course_dashboard/app/routes/analytics.py:81-93 | `month_frac` of a term's key equals `term_to_frac` of the term. |
| Analytics.MonthFracUnknown | course_dashboard/app/routes/analytics.py:93 | An unknown month gives 0. |
| Analytics.AllTermDates | course_dashboard/app/routes/analytics.py:81-90 | The keys are strictly sorted, and a key is listed iff some row produces it. |
| Analytics.CollapseSpaces | course_dashboard/app/routes/analytics.py:77 | Runs of whitespace become one space. The result is never longer, is empty only for empty input, and keeps whether each end is a space. |
| Analytics.CollapseSpacesSurvivors | course_dashboard/app/routes/analytics.py:77 | The collapse equals a position-by-position reading: every non-whitespace character is kept in order, and each whitespace run becomes exactly one space at the run's start. |
| Analytics.CollapseSpacesIdempotent | course_dashboard/app/routes/analytics.py:77 | Collapsing twice is collapsing once. |
| Analytics.DropTrailingPunct | course_dashboard/app/routes/analytics.py:78 | It cuts at a `[.,]` followed only by whitespace, or changes nothing when there is none. |
| Analytics.DropTrailingPunctLast | course_dashboard/app/routes/analytics.py:78 | On text with no trailing space, only a final `.` or `,` is removed. |
| Analytics.CleanInstructor | course_dashboard/app/routes/analytics.py:73-79 | Missing gives `""`. There is no leading whitespace and no two adjacent whitespace characters. |
| Analytics.CleanInstructorWord | course_dashboard/app/routes/analytics.py:73-79 | A single word loses one final `.` or `,`. |
| Analytics.CleanInstructorNotIdempotent | course_dashboard/app/routes/analytics.py:78 | `w..` cleans to `w.`, and cleaning that again gives `w`. |
| Analytics.DeptKey | course_dashboard/app/routes/analytics.py:173 | The first two dot segments, or the whole code when it has fewer. The key is a prefix of the code. |
| Analytics.DeptKeyOfCourse | course_dashboard/app/routes/analytics.py:173 | `S.D.rest` gives `S.D`. |
| Analytics.DeptKeyExample | course_dashboard/app/routes/analytics.py:173 | `AS.010.101` gives `AS.010`. |
| Recommend.LevelAtEnd | course_dashboard/app/routes/rec.py:89 | `.*?(\d{3})$` matches iff the text ends in three digits with no newline before them. |
| Recommend.ExtractLevel | course_dashboard/app/routes/rec.py:88-92 | A level is a digit followed by `00`. For one-line codes it exists iff the code ends in three digits, and it comes from the first of them. |
| Recommend.ExtractLevelOfNumber | course_dashboard/app/routes/rec.py:88-92 | A code ending in a three-digit number gives that number's hundred. |
| Recommend.ExtractLevelExample | course_dashboard/app/routes/rec.py:88-92 | `AS.010.101` gives `100`. |
| Recommend.ExtractLevelTrailingNewline | course_dashboard/app/routes/rec.py:89 | `$` also matches before one final newline. |
| Recommend.LevelsFound | course_dashboard/app/routes/rec.py:94 | The levels found are exactly the levels of some course. |
| Recommend.Levels | course_dashboard/app/routes/rec.py:94 | `levels` is strictly sorted, has no None, holds exactly the courses' levels, and each is `d00`. |
| Recommend.Eligible | course_dashboard/app/routes/rec.py:57 | It keeps every group with at least 5 respondents, with multiplicity, and drops all others. |
| Recommend.EligibleAppend | course_dashboard/app/routes/rec.py:57 | The filter splits over concatenation, so kept groups stay in input order. |
| Recommend.EligibleWithKey | course_dashboard/app/routes/rec.py:57 | Filtering by respondents and selecting one sort key commute. |
| Recommend.BeforeOrder | course_dashboard/app/routes/rec.py:58-64 | The order (descending, NaN last, teaching then challenge) is a strict total order on keys. |
| Recommend.Rank | course_dashboard/app/routes/rec.py:58-64 | The ranking keeps the number of groups. |
| Recommend.RankRanked | course_dashboard/app/routes/rec.py:58-64 | The ranking is ordered. |
| Recommend.RankPermutes | course_dashboard/app/routes/rec.py:58-64 | The ranking is a permutation. |
| Recommend.RankStable | course_dashboard/app/routes/rec.py:58-64 | Groups with equal keys keep their order. |
| Recommend.Recommend | course_dashboard/app/routes/rec.py:57-64 | It never yields more groups than it was given. |
| Recommend.RecommendSpec | course_dashboard/app/routes/rec.py:57-64 | The result is the eligible groups, ordered and stable, each with at least 5 respondents. |
| Recommend.RecommendStable | course_dashboard/app/routes/rec.py:57-64 | Among groups with equal keys, the result lists the input's groups with at least 5 respondents in input order. |

## Left out

- Network and HTML: `requests` sessions, cookies and headers, BeautifulSoup and the JSON decoding in `fetch_page`. Anchors and pages are given records. `url.split("?", 1)[1]` is modelled as `RequestId`, which returns None when the URL has no `?`; Python would raise there, and report URLs always have one.
- File I/O: PyMuPDF text extraction, the CSV append with its per-row column order, `os.path.exists`, the 8 KiB streaming write, `unlink`, `glob` and `mkdir`. Their outcomes are parameters or flags.
- Time: `time.sleep` durations are recorded, never awaited. `poll_interval` and `delay` are not modelled.
- tqdm progress, `print` diagnostics, `argparse` and `sys.exit`. An invalid prefix is an error value.
- Concurrency between crawler and watcher, and the `KeyboardInterrupt` handler.
- Flask routes, request-argument parsing and filtering in analytics.py and rec.py. The pandas `groupby` that sums respondents and averages scores in rec.py:48-55 is left out; groups are given records.
- `linear_trend`/`np.polyfit`, `time_key`, `nan2none`, `load_course_data`: floating-point numerics or pandas glue.
- visualize.py, temp.py, course_dashboard/app/routes/main.py, course_dashboard/app/__init__.py and course_dashboard/app/data_loader.py are not part of this model.
- helper.py's `summarize_instructor` (uses `np`, which is never imported) and `load_and_prepare_data` (calls the two-argument `parse_term` with one argument) cannot run. The static `DEPT_CODES` table is data.
- `extract_level` is defined twice in rec.py, at 38-42 and 88-92, identically. One model covers both.
- Character classes: `\s` is Python's `str.isspace` set. `\d`, `\w`, `upper()` and `title()` are modelled on ASCII only.
- Histogram.ReadHist: `ast.literal_eval` is not modelled. A cell is a parsed pair list or missing. For a malformed cell, preprocess.py raises and `compute_weighted_avg` returns None (helper.py:29-30); WeightedAvg's None input stands for that case.
- Trend.ParseTerm: the year is an integer. A float year column would make the label show `2023.0`. `pd.to_datetime` acceptance is a parameter.
- Analytics.DateKey: the year is an integer, so `astype(str)` gives its plain digits.
- Trend.SortByDate: its own contract gives only the length. The order, the permutation and the end points are stated by SortByDateSorts, SortByDateFirst and SortByDateLast. They are kept as lemmas so that the quantified facts enter only the proofs that use them.
- Recommend.Rank: its own contract gives only the length. The order, the permutation and the stability are stated by RankRanked, RankPermutes and RankStable, for the same reason.
- Trend.Classify: the difference of two means is an exact `real`. Python subtracts two floats, and rounding can move a difference across 0.1. With 3.2 then 3.3, the float difference is 0.09999999999999964, so the source says "Stayed the same" where the model says `Improved`. The model classifies the exact difference.
- Crawl.Crawl: `crawl` has no `try`, so an exception ends the whole run. The exception can come from `fetch_page`: the re-raise in `safe_get_retry` (eval_crawler.py:51-52) or a failed `r.json()`. It can also come from `save_pdf`, whose errors propagate (Download.SavePdf). The model's walk always runs to the end of the listings it is given, so it does not cover a run cut short.
- Crawl.Prefix: the same as Crawl.Crawl, for the pages of one prefix.
- Crawl.ApiPages: the same as Crawl.Crawl, for the API pages. A page that could not be fetched is not an outcome of the model.
- Trend.SortByDateSorts: Python's `list.sort` is modelled by a stable insertion sort with the same result. Its algorithm is not modelled.
- Recommend.RecommendSpec: `sort_values` is modelled as a stable sort. With two `by` columns pandas sorts through its lexsort indexer, which is stable, so ties between equal keys keep input order. That library behaviour is taken as given, not modelled.
- Http.RaiseForStatus: the 400–599 error range is the `requests` library's rule, not code in this repository.
- Extract.PairsIn: the contract bounds each pair. Text order is stated by Layouts.PairsInRowLines for rendered histograms, not for arbitrary text.

## Findings

| source | as written | input that shows it | evidently intended | confidence | as-written member | corrected member |
|---|---|---|---|---|---|---|
| extract.py:56-77 | `respondent_counts` is never appended to, so the text-derived count is lost. `num_respondents` is then overwritten by the file-name count, which is 0 when the name has no `N of M responded`. | A report named `Intro.pdf` whose questions print `23/40 (57%)` gets `num_respondents == 0`. | Use the file-name count when present, else the largest printed count. | not executed | Extract.ProcessPdfDropsPrintedCounts | Extract.ProcessPdfIntended |

