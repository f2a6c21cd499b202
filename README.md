# IT Dashboard reconciliation bot: a Dafny model of its core

The bot (`task.py`, class `MyBot`) collects IT-investment data from three
sources: the dashboard's agency tiles, the investments table of one target
agency, and the business-case PDF linked from each table row. It then
reconciles the PDFs against the table that was saved to the workbook. This
project models and proves the logic under that plumbing:

- `reconcile.dfy`, module `Reconcile`, models `MyBot.__compare_data`.
  - Every downloaded PDF is reduced to a record `{uii, title}`. The first
    failing extraction aborts the comparison.
  - Each record is then looked up in the sheet rows in order. The first row
    whose column A holds the record's UII decides the outcome: "match" when
    its column C holds the title, "unmatch" otherwise.
  - A record whose UII no row carries is "Not found".
  - Each record appends one newline-terminated line to the report. That line
    holds no further newline when no UII, title or column-C text holds one.
  - `ExtractEach` and `CompareRecords` are the source's loops;
    `CompareRecords` keeps the `found` flag and `break`. `CompareData` chains
    them. They are proved equal to the functional specification
    `Reconciliation` / `Report`, and the properties are proved about that
    specification.
- `pdf_fields.dfy`, module `PdfFields`, models `MyBot.__extract_data_from_pdf`.
  - The two patterns `Name of this Investment: (.+)2\.` and
    `Unique Investment Identifier \(UII\): (.+)Section B` are written out as
    a string matcher, not delegated to a regular-expression engine.
  - The leftmost label occurrence that admits a match wins.
  - The group is non-empty and newline-free. It is greedy, so it runs to the
    last terminator on the label's line.
  - `findall(...)[0]` on no match is an error.
- `normalize.dfy`, module `Normalize`: the tile normaliser
  (`__extract_data_from_tiles`) and the table normaliser
  (`__extract_data_from_table`), as loops over given page elements.
- `acquisition.dfy`, module `Acquisition`: the constructor's file
  bookkeeping, `__download_files` (one link and one `{dirpath}/{text}.pdf`
  path per anchor) and the bounded `__wait_download` countdown.
  - The bot is a class whose PDF path list is updated in place.
  - The file system is an observation function.
- `text.dfy` (occurrences, line ends, splitting into lines) and
  `wrappers.dfy` (`Option`, `Result`) are shared helpers.

The model follows the code as written, including:

- A PDF whose field is missing raises, so the comparison stops and no
  report is written (task.py:44, 60).
- The tile normaliser iterates over the agency names. Surplus amounts are
  ignored, and a shorter amount list raises an `IndexError`
  (task.py:135-138).
- `text[1]` looks up key 1 of the page-text mapping the PDF library returns
  (task.py:114-117). The model takes that mapping as a `map<int, string>`,
  and a missing key is the error `PageMissing`.
- An empty sheet cell is Python's `None`. It equals no extracted string, and
  an unmatch line renders it as `None` (task.py:49-54).
- A column-C text holding a newline is quoted verbatim in an unmatch line,
  so that record's line spans several lines (task.py:54).
- When text follows `2.` on the title's line, the greedy group runs to the
  last `2.` on that line and keeps any trailing space (task.py:116).

## Model

| member | source | states |
|---|---|---|
| Reconcile.CompareData | task.py:40-58 | The result is `Reconciliation`: the first PDF that fails to extract stops the comparison with that error, otherwise the report of the join of all extracted records in download order |
| Reconcile.ExtractEach | task.py:42-44 | The extraction loop runs the extractor on each PDF in order and yields `Collect` of the outcomes: every record, or the first failure |
| Reconcile.Collect | task.py:43-44 | All values in order, or the first failure; a success holds one value per outcome (the rest is stated by `CollectAllSucceed`, `CollectFirstFailure` and `CollectSuccess`) |
| Reconcile.ExtractAll | task.py:43-44 | A successful extraction of all PDFs yields one record per PDF |
| Reconcile.Reconciliation | task.py:40-58 | When every PDF extracts, the report is empty exactly when there are no PDFs |
| Reconcile.CompareRecords | task.py:46-58 | The nested loops with the `found` flag and `break` build exactly `Report(docs, rows)`: one line per record, in record order |
| Reconcile.Report | task.py:41-58 | The report is empty exactly when there are no records |
| Reconcile.Classify | task.py:48-56 | Every outcome is about the record's own UII; which row decides it is stated by `ClassifyNotFoundIff`, `ClassifyFirstKeyRow` and `ClassifyMatchedIff` |
| Reconcile.Decide | task.py:49-55 | A row carrying the UII gives match exactly when its column C is the title, and otherwise an unmatch that quotes that cell; either outcome carries the record's UII and title |
| Reconcile.CellText | task.py:54 | A cell renders as its text, and an empty cell as `None` |
| Reconcile.LineText | task.py:50-58 | The three line formats `{uii}: Titles match to {title}`, `{uii}: Titles unmatch --> {title} != {C}` and `{uii}: Not found`; their properties are stated by `LineTextNewlineFree` and `ReportOneLinePerRecord` |
| Reconcile.ClassifyNotFoundIff | task.py:47-58 | "Not found" is reported exactly when no row's column A holds the UII |
| Reconcile.ClassifyFirstKeyRow | task.py:48-56 | The first row holding the UII decides: match when its column C is the title, unmatch otherwise |
| Reconcile.ClassifyIgnoresLaterRows | task.py:48-56 | Once a row holding the UII exists, rows after it are never examined: appending rows does not change the outcome |
| Reconcile.ClassifyMatchedIff | task.py:49-54 | Match holds exactly when some row holds the UII and the title and no earlier row holds the UII with a different title |
| Reconcile.ClassifyByKeyRow | task.py:48-56 | On a sheet keyed by UII, the row holding the UII decides wherever it stands |
| Reconcile.ClassifyPermutation | task.py:48-56 | On a sheet keyed by UII, the outcome does not depend on the row order |
| Reconcile.ReportPermutation | task.py:46-58 | On a sheet keyed by UII, the whole report does not depend on the row order |
| Reconcile.ReportAppend | task.py:46-58 | The report of two record lists is the concatenation of their reports, so record order is kept |
| Reconcile.ReportSnoc | task.py:50-58 | Handling one more record appends exactly that record's line and newline |
| Reconcile.LineTextNewlineFree | task.py:50-58 | A report line holds no newline of its own when the UII, the title and the sheet titles hold none |
| Reconcile.ReportOneLinePerRecord | task.py:41-58 | When no UII, title or column-C text holds a newline, the report split into lines is exactly one line per record, in record order: `{uii}: Titles match to {title}`, `{uii}: Titles unmatch --> {title} != {C}` or `{uii}: Not found` |
| Reconcile.ReportOnEmptySheet | task.py:46-58 | Against an empty sheet every record's line is `{uii}: Not found` |
| Reconcile.ReconciliationOneLinePerPdf | task.py:43-58 | When every PDF extracts and no column-C text holds a newline, the report has one line per PDF, in download order, each line being that PDF's outcome |
| Reconcile.CollectAllSucceed | task.py:43-44 | When every extraction succeeds, all records are collected in order |
| Reconcile.CollectFirstFailure | task.py:43-44 | Otherwise the first failing extraction's error is the result |
| Reconcile.CollectSuccess | task.py:43-44 | A successful collection holds one record per PDF, record i coming from PDF i |
| PdfFields.LastTermAt | task.py:116-117 | Finds the last terminator occurrence in a range, and None only when there is none |
| PdfFields.MatchesOnLine | task.py:116-117 | With the label at i, the matches are exactly the terminators after a non-empty group and no later than the end of the label's line |
| PdfFields.TermOnLine | task.py:116-117 | For a label occurrence, the greedy group's end: a match with no later match from the same start, or None when that start admits no match |
| PdfFields.SearchFrom | task.py:116-117 | The leftmost match starting at or after i, ending at its last terminator, or None when no match starts there or later |
| PdfFields.Search | task.py:116-117 | The first match of the pattern in the page, or None when the pattern matches nowhere |
| PdfFields.FindField | task.py:116-117 | `findall(...)[0]`: no value exactly when the pattern matches nowhere, otherwise the first match's group |
| PdfFields.FindFieldIff | task.py:116-117 | The extractor returns v exactly when v is the first match's group |
| PdfFields.CapturedUnique | task.py:116-117 | The first match's group is unique |
| PdfFields.MatchShape | task.py:116-117 | The text of a match is its label, a non-empty newline-free group and its terminator |
| PdfFields.CapturedShape | task.py:116-117 | A capture is non-empty, newline-free, untrimmed, and stands in the text between its label and its terminator |
| PdfFields.NoTagInPrefix | task.py:116-117 | No single-line label occurrence starts in a line-ended prefix that does not hold it |
| PdfFields.NoLaterTerm | task.py:116-117 | When a terminator ends the line, no match from the same start ends later |
| PdfFields.FindFieldOnLine | task.py:116-117 | Round trip: a non-empty single-line field written on its own line after label-free text is read back exactly |
| PdfFields.LabelsAreSingleLine | task.py:116-117 | The labels and terminators of both patterns are single-line |
| PdfFields.TitleRoundTrip | task.py:116 | On a two-line page whose title line ends with `2.` and whose next line holds the UII field, the title pattern reads back any non-empty single-line title |
| PdfFields.UiiRoundTrip | task.py:117 | On that two-line page, the UII pattern reads back any non-empty single-line UII when the title line does not hold the UII label |
| PdfFields.ExtractDocument | task.py:112-119 | Fails with `PageMissing` exactly when page key 1 is absent; the full contract, one clause per error and the captures of a success, is stated by `ExtractDocumentSpec` |
| PdfFields.ExtractDocumentRoundTrip | task.py:112-119 | That two-line page, under page key 1, gives back its record `{uii, title}` |
| PdfFields.ExtractDocumentSpec | task.py:114-118 | A missing page key fails first, then a missing title, then a missing UII, each exactly when its cause holds; a success carries both first-match groups |
| PdfFields.ExtractedFieldsShape | task.py:112-119 | An extracted record's fields are non-empty single-line texts that stand on the page between their label and terminator |
| Normalize.ExtractDataFromTiles | task.py:131-139 | Succeeds exactly when there are at least as many amounts as agency names; then one `[name, amount]` row per agency in order, otherwise the index error at the first missing amount |
| Normalize.ExtractDataFromTable | task.py:121-129 | One list per table row in row order, each the row's cell texts in order |
| Acquisition.WaitDownload | task.py:167-178 | Sleeps at most 20 times (60 seconds); every earlier check saw the file missing or empty, and unless the budget ran out the file is now present and non-empty |
| Acquisition.PdfPath | task.py:97 | A saved path is the directory, a slash, the link text and the `.pdf` suffix |
| Acquisition.PdfPaths | task.py:94-97 | One path per anchor |
| Acquisition.PdfNameOfPath | task.py:97 | A saved path gives back the link text it was made from |
| Acquisition.PdfPathInjective | task.py:97 | Distinct link texts are saved under distinct paths |
| Acquisition.Bot.constructor | task.py:15-22 | The workbook path is `{dirpath}/Agencies.xlsx` and the PDF path list starts empty |
| Acquisition.Bot.DownloadFiles | task.py:89-102 | Appends exactly one `{dirpath}/{text}.pdf` per anchor in anchor order, returns the links parallel to the anchors, and waits for path i of the bot's list for link i |

## Left out

- Browser automation is foreign Selenium code: opening pages, clicks,
  `find_elements`, `WebDriverWait` and `__wait` (task.py:29-33, 100-101,
  163-165). Anchors, tiles and table cells are given as sequences of
  elements with their text and link target.
- `__prepare_table`'s `while size < 11` poll (task.py:151-155) depends only
  on live page state and has no bound.
- Excel I/O is a library: creating, renaming, appending, creating
  worksheets and reading back (task.py:62-87, 104-110). The sheet is given
  as rows exposing columns A and C.
- PDF text decoding (task.py:114) is a library. The model takes the page
  texts as a map.
- Writing the report to `compare-pdf.txt` (task.py:59-60), `__make_dir`,
  reading `settings.json` (task.py:141-144, 158-161) and `time.sleep`
  (task.py:177) are I/O and timing. The output directory and the target are
  given to the constructor.
- `run`'s try/finally teardown (task.py:27-38) orchestrates external
  resources.
- Reconcile.CompareRecords: cells holding numbers or dates are not
  modelled. Every non-empty cell is a string, so `e["C"] != p["title"]` is
  modelled as string inequality.
- Acquisition.WaitDownload: one observation stands for each loop test. The
  source may query the file system up to three times per test, and the
  model does not capture the file changing between those queries.
  Observations are indexed by path and check number, and the check number
  restarts at 0 on every call. So two anchors with the same link text see
  the same observations, whereas the second real wait would find the file
  the first download already saved.
- Acquisition.Bot.DownloadFiles: the browser actions between the wait calls
  are not modelled, and neither is the `set_download_directory` call of
  the constructor.
