# Scheduled LinkedIn job scrape: keyword filter and log append

This project models the logic that the scheduled script
`webscrapping_projects/scheduled/linkedin_lib_de_fil.py` owns. The script
drives a third-party scraping engine. Its data callback collects each posted
job into an in-memory list. After the run it keeps the postings whose
description mentions relocation or a visa, and it writes them to
`outputs/jobs_log.csv`. If the file exists, the rows are appended without a
header. Otherwise the file is created with a header.

The model has four parts, one module each:

- `CaseFold` (`case_fold.dfy`): lower-casing (`str.lower()`) and substring
  search (`word in text`). `Contains` is proved equal to "the word occurs at
  some position".
- `Jobs` (`jobs.dfy`) and `KeywordFilter` (`keyword_filter.dfy`): the
  engine's event, the flat record, and the keep test. `FilterJobs` is the
  specification of the filter. `FilterListings` is the loop itself, proved
  equal to `FilterJobs`. The lemmas show that the result is exactly the
  kept postings, in input order, with repetitions counted. That
  characterisation is unique. The filter commutes with appending, is
  idempotent and ignores letter case.
- `Collecting` (`collector.dfy`): the buffer that `on_data` appends to. It is
  a class with one `seq` field that grows by exactly one record per event.
- `JobsLogFile` (`jobs_log.dfy`): the log file as a sequence of lines, each
  a header line or a data line. `Save` takes the append or create branch.
  `Script.FilterAndSave` (`script.dfy`) runs the filter and then the save,
  as the end of the script does.

The script has no `job_id` column. It neither deduplicates nor sorts: it
appends plainly, and so does the model.

## Model

| member | source | states |
|---|---|---|
| CaseFold.LowerChar | webscrapping_projects/scheduled/linkedin_lib_de_fil.py:70 | an upper-case ASCII letter becomes its lower-case letter (code point + 32); every other character is unchanged; the result is never upper-case |
| CaseFold.Lower | webscrapping_projects/scheduled/linkedin_lib_de_fil.py:70 | lower-casing changes only letter case (each character stays, or becomes its other-case letter) and leaves no upper-case letter |
| CaseFold.LowerUnique | webscrapping_projects/scheduled/linkedin_lib_de_fil.py:70 | those two properties determine the lower-case form: any case variant of a string with no upper-case letter is its lower-case form |
| CaseFold.LowerIdempotent | webscrapping_projects/scheduled/linkedin_lib_de_fil.py:70 | lower-casing an already lower-cased string changes nothing |
| CaseFold.Contains | webscrapping_projects/scheduled/linkedin_lib_de_fil.py:71 | `word in text` holds exactly when `word` equals the slice of `text` at some position |
| CaseFold.LowerIgnoresCase | webscrapping_projects/scheduled/linkedin_lib_de_fil.py:70 | two strings that are case variants of each other (equal, or differing only by the other-case letter at some positions) have the same lower-case form |
| CaseFold.ContainsLowerIff | webscrapping_projects/scheduled/linkedin_lib_de_fil.py:70-71 | for an all-lower-case word, `word in text.lower()` holds exactly when the word occurs in the text at some position with each letter in either case |
| KeywordFilter.MentionsKeyword | webscrapping_projects/scheduled/linkedin_lib_de_fil.py:70-71 | the text test (lower-case the description, then two `in` tests) holds exactly when "relocat" or "visa" occurs in the description with each letter in either case |
| KeywordFilter.Keep | webscrapping_projects/scheduled/linkedin_lib_de_fil.py:69-71 | a posting is kept exactly when its description is a string and "relocat" or "visa" occurs in it with each letter in either case; `None` and non-string descriptions are never kept |
| KeywordFilter.FilterJobs | webscrapping_projects/scheduled/linkedin_lib_de_fil.py:67-72 | soundness: every posting kept has a string description that mentions "relocat" or "visa" once lower-cased (so a `None` or non-string description is never kept); the result is no longer than the input |
| KeywordFilter.FilterSelectsKept | webscrapping_projects/scheduled/linkedin_lib_de_fil.py:67-72 | the result is the subsequence of the input at strictly increasing positions, unmodified, and those positions are exactly the ones whose posting passes the keep test (sound and complete, order kept) |
| KeywordFilter.FilterUnique | webscrapping_projects/scheduled/linkedin_lib_de_fil.py:67-72 | any list that picks out exactly the kept postings in input order equals the filter's result |
| KeywordFilter.FilterComplete | webscrapping_projects/scheduled/linkedin_lib_de_fil.py:68-72 | completeness: every input posting that passes the keep test appears in the result |
| KeywordFilter.FilterCounts | webscrapping_projects/scheduled/linkedin_lib_de_fil.py:67-72 | a kept posting occurs in the result as many times as in the input; a dropped posting occurs zero times |
| KeywordFilter.FilterConcat | webscrapping_projects/scheduled/linkedin_lib_de_fil.py:67-72 | filtering a concatenation is the concatenation of the filtered parts, so postings collected later never change the decision on earlier ones |
| KeywordFilter.FilterKeepsAllKept | webscrapping_projects/scheduled/linkedin_lib_de_fil.py:67-72 | a list whose postings all pass the keep test is returned unchanged |
| KeywordFilter.FilterIdempotent | webscrapping_projects/scheduled/linkedin_lib_de_fil.py:67-72 | filtering the filtered list changes nothing |
| KeywordFilter.FilterKeepsLengthIffAllKept | webscrapping_projects/scheduled/linkedin_lib_de_fil.py:67-72 | the result is as long as the input if and only if every posting passes the keep test |
| KeywordFilter.MentionsKeywordIgnoresCase | webscrapping_projects/scheduled/linkedin_lib_de_fil.py:70-71 | two descriptions that are case variants of each other get the same keyword decision |
| KeywordFilter.MentionsKeywordUpper | webscrapping_projects/scheduled/linkedin_lib_de_fil.py:70-71 | an upper-cased description gets the same keyword decision as the original |
| KeywordFilter.KeptIndicesIgnoreCase | webscrapping_projects/scheduled/linkedin_lib_de_fil.py:69-72 | replacing each description by a case variant of it (a non-string by a non-string) keeps exactly the same positions |
| KeywordFilter.FilterStep | webscrapping_projects/scheduled/linkedin_lib_de_fil.py:68-72 | one loop step: the result for the first i+1 postings is the result for the first i, followed by posting i if and only if it passes the keep test |
| KeywordFilter.FilterListings | webscrapping_projects/scheduled/linkedin_lib_de_fil.py:67-72 | the loop returns exactly `FilterJobs` of the collected postings, so the soundness, completeness and order lemmas above apply to what the script writes |
| KeywordFilterExamples.RelocationExample | webscrapping_projects/scheduled/linkedin_lib_de_fil.py:69-71 | the description "Relocation assistance provided" passes the keyword test |
| KeywordFilterExamples.VisaExample | webscrapping_projects/scheduled/linkedin_lib_de_fil.py:69-71 | the description "VISA sponsorship" passes the keyword test, despite its upper-case letters |
| KeywordFilterExamples.RemoteExample | webscrapping_projects/scheduled/linkedin_lib_de_fil.py:69-71 | the description "Remote position" does not pass the keyword test |
| Collecting.Collector.constructor | webscrapping_projects/scheduled/linkedin_lib_de_fil.py:13 | the buffer starts empty |
| Collecting.Collector.OnData | webscrapping_projects/scheduled/linkedin_lib_de_fil.py:15-25 | the buffer grows by exactly one record at the end; earlier records are unchanged; the new record holds the given capture time and the event's title, company, company link, date text, link and description; the filtered view grows by that record alone, if it passes |
| JobsLogFile.Rows | webscrapping_projects/scheduled/linkedin_lib_de_fil.py:80-82 | the data lines written for a batch: one line per posting, line k holding posting k, in batch order |
| JobsLogFile.RowsAddNoHeader | webscrapping_projects/scheduled/linkedin_lib_de_fil.py:79-80 | appending the data lines of a batch adds no header line |
| JobsLogFile.RowsAppendPostings | webscrapping_projects/scheduled/linkedin_lib_de_fil.py:79-80 | appending the data lines of a batch adds exactly its postings, in order, after those already in the file |
| JobsLogFile.FreshFileShape | webscrapping_projects/scheduled/linkedin_lib_de_fil.py:81-82 | a freshly written file has exactly one header line and holds exactly the batch's postings, in order |
| JobsLogFile.JobsLog.constructor | webscrapping_projects/scheduled/linkedin_lib_de_fil.py:78-79 | the log starts in the state found on disk; a missing file has no lines |
| JobsLogFile.JobsLog.Save | webscrapping_projects/scheduled/linkedin_lib_de_fil.py:79-82 | an existing file becomes its old lines followed by one data line per posting, with no header added and nothing removed, reordered or deduplicated; a missing file becomes one header line followed by the data lines; either way the file then exists |
| Script.FilterAndSave | webscrapping_projects/scheduled/linkedin_lib_de_fil.py:66-84 | the log gains exactly the filtered postings, in filter order, by the append or create branch; the count returned is the number of filtered postings |

## Left out

- The scraping engine (construction, query configuration, `scraper.run`, lines 36-64) is a third-party browser-automation library. Each data event it pushes is a call of `Collector.OnData` with the event as a parameter.
- `on_metrics`, `on_error` and `on_end` (lines 27-34) only print. They do not affect the data.
- The capture time (`datetime.utcnow().isoformat()`, line 18) reads the clock. It is an opaque string parameter of `OnData`.
- Python's `str.lower()` folds all of Unicode. `CaseFold.Lower` folds ASCII only. This changes `Lower`'s result on non-ASCII letters, but not which postings are kept. The only non-ASCII characters Python lower-cases to ASCII are U+0130 (to "i" plus a combining dot) and U+212A (to "k"), and neither can complete "relocat" or "visa".
- `Value` collapses every non-string value other than `None` into one case. The script only asks whether a description is a string.
- The records built by `on_data` always carry a `description` key. A missing key therefore does not arise and is not modelled separately from `None`.
- The CSV text is not modelled: quoting, delimiters, column inference by pandas, and the index column that `index=False` turns off. A data line holds the whole record, and the header line holds the seven column names.
- Writing an empty batch to a missing file is not modelled specially. pandas then writes a DataFrame with no columns, and the model writes the full header.
- `os.makedirs` and `os.path.exists` (lines 77-79) are filesystem calls. Whether the log exists is the `present` field of `JobsLog`.
- The final `print` (line 84) is output. Only the count it reports is modelled, as the result of `FilterAndSave`.
- Write failures, such as a full disk, are not modelled.
