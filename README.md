# AutomateCVs publication pipeline, modelled in Dafny

AutomateCVs builds a researcher's CV from two inputs: a YAML profile and a list
of publications. This project models the part of the repository that handles
publications:

- `fetch_publications.py` turns a Google Scholar CSV export, or the publications
  the `scholarly` client fills in, into canonical records
  `{title, authors, venue, year}`. It strips the text fields, coerces the year to
  an integer or `None`, sorts the records by `(year or 0, title)` descending, and
  picks which of the two sources to use.
- `generate_cv_docx.py` loads the stored records, sorts them again and keeps the
  first `max_publications` (8 by default). It then writes one numbered line
  `authors (year). title. venue.` per publication, or "No publications available."
  when none are kept.
- `generate_cv_tex.py` sorts the stored records again and hands one prefix to the
  short LaTeX CV (8 by default) and one to the long CV (1000 by default).
- `fetch_scholar_to_csv.py` fills every publication of a scholar profile and
  writes one CSV row per successful fill, in the export's column layout. A
  failed fill is skipped.

Modules, one file each:

- `Wrappers` holds `Option` and `Result`.
- `Text` models Python's `str.strip()`, `int(str)` on text, and `str(int)`.
- `Records` holds the canonical record and the per-record extraction from a CSV
  row or a scholar bib.
- `Ranking` holds the sort. `Rank` is stable insertion. `RankCharacterization`
  proves it is the only ordering that is descending by key and keeps the input
  order of records with equal keys. That is what Python's stable
  `list.sort(key=..., reverse=True)` promises.
- `FetchPublications`, `Selection`, `CvDocx`, `CvTex` and `ScholarCsv` model the
  scripts.

The normalizers and generators are methods. Where the source loops and appends,
the method loops and appends too, and each method is proved against the
specification functions. The in-place `list.sort` is modelled as
`publications := Rank(publications)`.

Two properties of the code that a reader might not expect:

- **Ties in the sort.** The sort is Python's stable `list.sort(key=...,
  reverse=True)`. Records whose keys are exactly equal (same year and same
  title) stay in input order, so the result is not the same as sorting
  ascending and then reversing the list. `Ranking.EqualKeysKeepInputOrder`
  states this. For distinct keys the order is simply descending: titles within
  a year come out in descending order.
- **Negative years.** `int()` accepts a leading `-`, so a year can be negative.
  Such a record ranks below undated records, which rank as year 0.

## Model

| member | source | states |
|---|---|---|
| Text.TrimStartShape | fetch_publications.py:21-23 | the leading-whitespace half of `str.strip()` keeps a suffix, drops only whitespace (Python's `isspace` set) and stops at a non-space |
| Text.TrimEndShape | fetch_publications.py:21-23 | the trailing-whitespace half of `str.strip()` keeps a prefix, drops only whitespace and stops at a non-space |
| Text.StripShape | fetch_publications.py:21-23 | `str.strip()` cuts its input into whitespace, the result and whitespace, and the result has no leading or trailing whitespace |
| Text.StripEmptyIffBlank | fetch_publications.py:58 | `str.strip()` gives "" exactly when the text is all whitespace |
| Text.StripPadded | fetch_publications.py:21-23 | stripping text padded on both sides by whitespace gives back exactly the unpadded text |
| Text.StripIdempotent | fetch_scholar_to_csv.py:47-48 | stripping twice is stripping once, so a title stripped when written and again when read back is unchanged |
| Text.ParseIntOfBlank | fetch_publications.py:26-29 | `int()` of blank or whitespace-only text raises, which the caller turns into `None` |
| Text.ParseSignedRejects | fetch_publications.py:26-29 | text with a non-digit after its first character is not an integer literal |
| Text.IntToString | generate_cv_docx.py:118-119 | `str(n)` is non-empty, begins with `-` or a digit, and carries no surrounding whitespace |
| Text.ParseIntOfIntToString | fetch_publications.py:26-27 | `int()` of `str(n)`, padded with any whitespace, gives back `n` |
| Records.FromCsvRow | fetch_publications.py:24-36 | a CSV row's year is `None` exactly when the cell is missing, NaN or not an integer, and otherwise what `int()` gives |
| Records.FromCsvRowTrimmed | fetch_publications.py:20-36 | a record built from a CSV row has stripped title, authors and venue |
| Records.CsvYearOfIntText | fetch_publications.py:24-29 | a CSV year cell holding `str(n)`, with any surrounding whitespace, is read as the year `n` |
| Records.NanCellStripped | fetch_publications.py:21 | a NaN text cell normalizes to "nan", not to "" |
| Records.FromBibTrimmed | fetch_publications.py:53-73 | a record built from a filled bib has stripped title, authors and venue |
| Records.BlankJournalHidesBooktitle | fetch_publications.py:57-58 | a whitespace-only journal is chosen over the booktitle and strips to an empty venue |
| Records.EmptyVenue | fetch_publications.py:57-58 | the venue is empty exactly when the journal is blank and, if the journal is missing or empty, the booktitle is blank too |
| Records.Filled | fetch_scholar_to_csv.py:39-43 | the bibs of the successful fills, never more than there were publications |
| Records.FilledSnoc | fetch_scholar_to_csv.py:37-43 | one more publication adds its bib when its fill succeeds and nothing when it fails |
| Records.FilledKeepsAllIffNoneFailed | fetch_scholar_to_csv.py:37-67 | every publication yields a bib exactly when no fill fails, and then the bibs are the fills in order |
| Ranking.StrLtIrreflexive | fetch_publications.py:40 | no title sorts before itself |
| Ranking.StrLtTransitive | fetch_publications.py:40 | title order is transitive |
| Ranking.StrLtTotal | fetch_publications.py:40 | of two distinct titles one sorts before the other |
| Ranking.KeyLtTransitive | fetch_publications.py:40 | the order on `(year or 0, title)` is transitive |
| Ranking.KeyLtTotal | fetch_publications.py:40 | of two distinct sort keys one is smaller |
| Ranking.KeyLtAsymmetric | fetch_publications.py:40 | two keys are never each smaller than the other |
| Ranking.Rank | fetch_publications.py:40 | the sort keeps every record (same multiset, same length) |
| Ranking.InsertRanked | fetch_publications.py:40 | inserting a record at its place keeps a ranked list ranked |
| Ranking.RankRanked | fetch_publications.py:40 | the sorted list is descending by `(year or 0, title)` |
| Ranking.RankWithKey | fetch_publications.py:40 | records with equal keys keep their input order through the sort |
| Ranking.RankIsStableRanking | fetch_publications.py:40 | the sort is a stable descending sort |
| Ranking.StableRankingUnique | fetch_publications.py:40 | two stable descending sorts of the same list are equal |
| Ranking.RankCharacterization | fetch_publications.py:40 | a list is a stable descending sort of the input exactly when it equals `Rank` of it |
| Ranking.RankOfRanked | generate_cv_tex.py:57-58 | sorting a list that is already ranked leaves it unchanged |
| Ranking.RankIdempotent | generate_cv_tex.py:57-58 | the defensive re-sort of a sorted list changes nothing |
| Ranking.EqualKeysKeepInputOrder | fetch_publications.py:40 | two records with the same year and title stay in input order (no reversal of ties) |
| Ranking.RankedOrder | fetch_publications.py:75 | in a ranked list a record with a strictly greater key comes earlier |
| Ranking.LastIsSmallest | fetch_publications.py:40 | a ranked list with the input's records of each key ends with a key no greater than the input's last record's |
| FetchPublications.CsvRecords | fetch_publications.py:19-37 | one record per CSV row |
| FetchPublications.BibRecords | fetch_publications.py:50-73 | one record per filled bib |
| FetchPublications.CsvRecordsAt | fetch_publications.py:19-37 | the k-th record is built from the k-th CSV row |
| FetchPublications.BibRecordsAt | fetch_publications.py:50-73 | the k-th record is built from the k-th filled bib |
| FetchPublications.ScholarStep | fetch_publications.py:51-73 | a successful fill appends that bib's record |
| FetchPublications.CsvRecordsTrimmed | fetch_publications.py:21-23 | every CSV record has stripped title, authors and venue |
| FetchPublications.BibRecordsTrimmed | fetch_publications.py:55-58 | every scholar record has stripped title, authors and venue |
| FetchPublications.RankKeepsTrimmed | fetch_publications.py:40 | sorting keeps the records trimmed |
| FetchPublications.NormalizeFromCsv | fetch_publications.py:16-41 | the output is the stable descending sort of one normalized record per row: nothing dropped, everything trimmed |
| FetchPublications.NormalizeFromScholarly | fetch_publications.py:44-76 | fails exactly when some fill raises; otherwise gives the stable descending sort of one trimmed record per publication |
| FetchPublications.Run | fetch_publications.py:79-95 | the CSV wins when it exists, then the scholar client when enabled; otherwise FileNotFoundError and nothing is written; whatever is written is ranked and trimmed |
| FetchPublications.IndexOf | fetch_publications.py:21-24 | the first header position holding the column name |
| FetchPublications.Column | fetch_publications.py:21-24 | `row.get(col)` is absent exactly when the header has no such column |
| FetchPublications.NotIntegerWithNonDigit | fetch_publications.py:26-29 | trimmed text with a non-digit after its first character makes `int()` fail |
| FetchPublications.NaTokensAreNotIntegers | fetch_publications.py:26-29 | no missing-value token is an integer literal |
| FetchPublications.CsvYearUnset | fetch_publications.py:24-29 | a missing, NaN or unparseable CSV year becomes `None` rather than an error |
| Selection.Head | generate_cv_docx.py:41 | `s[:n]` is a prefix of length `min(n, len)` for `n >= 0`, `max(0, len + n)` for `n < 0`, and all of `s` for `None` |
| Selection.HeadMonotone | generate_cv_tex.py:33-39 | a smaller non-negative bound takes a prefix of what a larger bound takes |
| Selection.HeadSubMultiset | generate_cv_docx.py:41 | the slice holds only records of the list |
| Selection.HeadKeepsTheBest | generate_cv_docx.py:38-41 | a slice of a ranked list is ranked, and nothing left out ranks above anything kept |
| CvDocx.YearText | generate_cv_docx.py:118 | the year shows as "n.d." exactly when it is missing, `None` or 0 |
| CvDocx.YearTextRoundTrip | generate_cv_docx.py:118-119 | a dated line shows text that reads back as its year |
| CvDocx.PublicationLineLayout | generate_cv_docx.py:118-119 | the line is the authors, " (", the year text, "). ", the title, ". ", the venue and a full stop, each at its offset, and nothing else |
| CvDocx.PublicationLineShowsYear | generate_cv_docx.py:118-119 | in a dated publication's line, the text inside the parentheses after the authors reads back as its year |
| CvDocx.PublicationParagraphs | generate_cv_docx.py:116-122 | one numbered line per selected publication in order, or just the plain "No publications available." |
| CvDocx.GeneratePublications | generate_cv_docx.py:35-41 | the selection is the first `max_publications` of the re-sorted stored list (empty when the file is missing); it is ranked, drawn from the stored records, and 8 long by default when there are enough |
| CvTex.Selected | generate_cv_tex.py:33-40 | each version takes a prefix of the sorted list: up to 8 for the short CV and 1000 for the long one by default, everything when the setting is null |
| CvTex.ShortSelectionIsPrefixOfLong | generate_cv_tex.py:33-39 | when both bounds are non-negative numbers and the short one is no larger than the long one, the short CV's publications begin the long CV's |
| CvTex.GenerateSelections | generate_cv_tex.py:53-61 | both versions are ranked prefixes of the one re-sorted list; a missing file gives none; an already-ranked file is not reordered; by default the short selection begins the long one |
| ScholarCsv.BibRows | fetch_scholar_to_csv.py:37-67 | one row per filled bib |
| ScholarCsv.WrittenRowMatchesRecord | fetch_scholar_to_csv.py:45-65 | a written row holds the scholar normalizer's record for the same bib: authors and title as written (already stripped), the venue once stripped, the year once parsed |
| ScholarCsv.BibRowsAt | fetch_scholar_to_csv.py:37-67 | the i-th row is the row of the i-th filled bib (publication order) |
| ScholarCsv.RowsStep | fetch_scholar_to_csv.py:39-67 | a successful fill appends its row; a failed one appends nothing |
| ScholarCsv.FetchPublicationsToCsv | fetch_scholar_to_csv.py:32-67 | the header then one row per successful fill in order; at most one row per publication, exactly one each when no fill fails; every row has the header's width |
| ScholarCsv.RowsWidth | fetch_scholar_to_csv.py:21-30 | every written row has one field per header column |
| ScholarCsv.ParseArgvIgnoresExtra | fetch_scholar_to_csv.py:73-83 | arguments after the output file are ignored: the invocation is the one its first three arguments give |
| ScholarCsv.ReadWrittenRow | fetch_scholar_to_csv.py:21-30 | the columns the normalizer reads are found at their written positions |
| ScholarCsv.YearReadsBack | fetch_scholar_to_csv.py:49 | the raw year written and read back gives the same year as the scholar path, including missing and unparseable ones |
| ScholarCsv.CsvRowReadsBack | fetch_scholar_to_csv.py:45-67 | a written row read by the CSV normalizer gives the record the scholar normalizer builds from the same bib, when no written text field is a missing-value token |
| ScholarCsv.UntitledReadsBackAsNan | fetch_scholar_to_csv.py:47 | a bib without a title is written with an empty Title, which reads back as the title "nan" |
| ScholarCsv.CsvExportMatchesScholarly | fetch_scholar_to_csv.py:37-67 | when no written title, authors or venue is one of pandas' missing-value tokens, exporting and then normalizing the CSV gives, record for record, what normalizing straight from the scholar client gives |

## Left out

- File and network I/O are replaced by parameters:
  - the CSV, JSON and YAML files, `Path.exists` and `mkdir` are left out;
  - file contents become sequences and file existence becomes booleans;
  - `json.dump` is the returned record list;
  - `csv.DictWriter` output is a table of fields, without CSV quoting.
- The `scholarly` client is left out because it is a network library:
  - `search_author_id` and the profile-level `fill` are not modelled;
  - each publication's `fill` is a given `Option<Bib>`, with `None` standing for the raised exception;
  - a failing `search_author_id` is not modelled.
- python-docx and jinja2 rendering are left out because they are third-party
  layout libraries:
  - the name, contact and profile sections, education, positions, research,
    teaching, service, awards and skills are not modelled;
  - paragraph styles and fonts are not modelled;
  - the template itself is not modelled.
  
  Only the publication paragraphs and the lists handed to the template are modelled.
- `print` output, warnings and the process exit are left out; `ParseArgv` returns the exit status instead.
- pandas type inference is left out. A Year column that pandas reads as
  numbers (`2019.0` in a float column) is modelled as its text. Float
  truncation by `int()` is not modelled.
- Records.CsvYear: `int()` is modelled on text only: optional whitespace, an optional sign and ASCII digits. Unicode digits and `_` separators, which Python also accepts, are not modelled.
- Text.StripShape: no case folding or normalisation is involved; whitespace is the fixed `isspace` set.
- Stored JSON entries are modelled as the canonical records the normalizer writes. A hand-edited `publications.json` with missing keys or non-string titles is not modelled. On such a file `p.get("title") or ""` would matter and `pub['authors']` would raise KeyError.
- Selection.Stop: a `config` or `short_cv` entry that is present but not a mapping makes `.get` raise AttributeError in the source. A non-integer `max_publications` makes the slice raise TypeError. Neither is modelled.
- FetchPublications.NormalizeFromScholarly: the source does not catch a raising fill here. The model returns `Failure(FillFailed)` for the first one, and `Run` propagates it, so nothing is written.
