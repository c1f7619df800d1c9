/**
 * fetch_scholar_to_csv.py: fill every publication of a scholar profile and write
 * one CSV row per publication whose fill succeeds, in the column layout of the
 * Google Scholar export that fetch_publications.py reads back.
 */
module ScholarCsv {
  import opened Wrappers
  import opened Seqs
  import opened Text
  import opened Records
  import opened FetchPublications

  /** The CSV header, in the order `csv.DictWriter` writes the columns. */
  const Header: seq<string> := ["Authors", "Title", "Publication", "Volume", "Number", "Pages", "Year", "Publisher"]

  /** Eight fields in column order. */
  function Row(authors: string, title: string, publication: string, volume: string,
               number: string, pages: string, year: string, publisher: string): seq<string>
  {
    [authors, title, publication, volume, number, pages, year, publisher]
  }

  /**
   * The row written for one filled bib: title and authors stripped, the journal
   * (or the booktitle when the journal is empty) unstripped, and every other
   * field copied as it is, "" when missing.
   */
  function BibRow(bib: Bib): (row: seq<string>)
    ensures |row| == |Header|
  {
    Row(Strip(OrEmpty(bib.author)), Strip(OrEmpty(bib.title)), RawVenue(bib),
        OrEmpty(bib.volume), OrEmpty(bib.number), OrEmpty(bib.pages),
        OrEmpty(bib.year), OrEmpty(bib.publisher))
  }

  /**
   * A written row carries the record the scholar normalizer builds from the
   * same bib: the authors and title as they are (already stripped), the venue
   * once stripped, and the year once parsed.
   */
  lemma WrittenRowMatchesRecord(bib: Bib)
    ensures var row := BibRow(bib); var p := FromBib(bib);
      && row[0] == p.authors && row[1] == p.title
      && Strip(row[0]) == row[0] && Strip(row[1]) == row[1]
      && Strip(row[2]) == p.venue
      && ScholarYear(Some(row[6])) == p.year
  {
    StripIdempotent(OrEmpty(bib.author));
    StripIdempotent(OrEmpty(bib.title));
  }

  /** The rows of the filled bibs, one each, in order. */
  function BibRows(bibs: seq<Bib>): (rows: seq<seq<string>>)
    ensures |rows| == |bibs|
  {
    if bibs == [] then [] else BibRows(bibs[..|bibs| - 1]) + [BibRow(bibs[|bibs| - 1])]
  }

  lemma {:induction false} BibRowsAt(bibs: seq<Bib>, i: nat)
    requires i < |bibs|
    ensures BibRows(bibs)[i] == BibRow(bibs[i])
  {
    var init := bibs[..|bibs| - 1];
    assert BibRows(bibs) == BibRows(init) + [BibRow(bibs[|bibs| - 1])];
    if i < |bibs| - 1 {
      BibRowsAt(init, i);
      assert init[i] == bibs[i];
    }
  }

  lemma BibRowsSnoc(bibs: seq<Bib>, bib: Bib)
    ensures BibRows(bibs + [bib]) == BibRows(bibs) + [BibRow(bib)]
  {
    assert (bibs + [bib])[..|bibs|] == bibs;
  }

  lemma RowsStep(fills: seq<Option<Bib>>, i: nat)
    requires i < |fills|
    ensures BibRows(Filled(fills[..i + 1])) ==
      BibRows(Filled(fills[..i])) + (if fills[i].Some? then [BibRow(fills[i].value)] else [])
  {
    FilledSnoc(fills, i);
    if fills[i].Some? {
      BibRowsSnoc(Filled(fills[..i]), fills[i].value);
    } else {
      assert Filled(fills[..i + 1]) == Filled(fills[..i]);
    }
  }

  /**
   * `fetch_publications_to_csv`: the header, then a row per publication in
   * order; a publication whose fill raises is skipped and the loop goes on.
   */
  method FetchPublicationsToCsv(fills: seq<Option<Bib>>) returns (table: seq<seq<string>>)
    ensures table == [Header] + BibRows(Filled(fills))
    ensures |table| - 1 <= |fills|
    ensures |table| - 1 == |fills| <==> forall i :: 0 <= i < |fills| ==> fills[i].Some?
    ensures table[0] == Header && forall k :: 1 <= k < |table| ==> |table[k]| == |Header|
  {
    var rows := [];
    for i := 0 to |fills|
      invariant rows == BibRows(Filled(fills[..i]))
    {
      RowsStep(fills, i);
      if fills[i].None? {
        continue;
      }
      rows := rows + [BibRow(fills[i].value)];
    }
    WholeSlice(fills);
    table := [Header] + rows;
    FilledKeepsAllIffNoneFailed(fills);
    RowsWidth(Filled(fills));
  }

  /** Every row written for the bibs has one field per column. */
  lemma RowsWidth(bibs: seq<Bib>)
    ensures forall k :: 0 <= k < |BibRows(bibs)| ==> |BibRows(bibs)[k]| == |Header|
  {
    forall k | 0 <= k < |BibRows(bibs)|
      ensures |BibRows(bibs)[k]| == |Header|
    {
      RowWidth(bibs, k);
    }
  }

  lemma RowWidth(bibs: seq<Bib>, i: nat)
    requires i < |bibs|
    ensures |BibRows(bibs)[i]| == |Header|
  {
    BibRowsAt(bibs, i);
  }

  /** What the command line asks for: the usage message, or a fetch. */
  datatype Invocation = Usage(exitCode: int) | Fetch(authorId: string, outputCsv: string)

  /** The `__main__` block: an author id is required; the output file defaults to citations.csv. */
  function ParseArgv(argv: seq<string>): Invocation
  {
    if |argv| < 2 then Usage(1)
    else Fetch(argv[1], if |argv| >= 3 then argv[2] else "citations.csv")
  }

  /** Arguments after the output file are ignored. */
  lemma ParseArgvIgnoresExtra(argv: seq<string>)
    requires |argv| >= 3
    ensures ParseArgv(argv) == ParseArgv(argv[..3])
  {
    assert argv[..3][1] == argv[1] && argv[..3][2] == argv[2];
  }

  /** A written field that pandas will read back as text rather than as NaN. */
  predicate ReadsAsText(field: string) {
    !IsNaToken(field)
  }

  /** A bib whose written title, authors and venue all read back as text. */
  predicate ReadsBack(bib: Bib) {
    ReadsAsText(Strip(OrEmpty(bib.title))) && ReadsAsText(Strip(OrEmpty(bib.author))) && ReadsAsText(RawVenue(bib))
  }

  /** The four columns the normalizer reads, found at their written positions. */
  lemma ReadWrittenRow(fields: seq<string>)
    requires |fields| == |Header|
    ensures ReadRow(Header, fields) ==
      CsvRow(ReadCell(fields[1]), ReadCell(fields[0]), ReadCell(fields[2]), ReadCell(fields[6]))
  {
    TextColumns(fields);
    YearColumn(fields);
  }

  lemma TextColumns(fields: seq<string>)
    requires |fields| == |Header|
    ensures Column(Header, fields, "Authors") == ReadCell(fields[0])
    ensures Column(Header, fields, "Title") == ReadCell(fields[1])
    ensures Column(Header, fields, "Publication") == ReadCell(fields[2])
  {
    ColumnAt(Header, fields, "Authors", 0);
    NamesBefore("Title", 1);
    ColumnAt(Header, fields, "Title", 1);
    NamesBefore("Publication", 2);
    ColumnAt(Header, fields, "Publication", 2);
  }

  lemma YearColumn(fields: seq<string>)
    requires |fields| == |Header|
    ensures Column(Header, fields, "Year") == ReadCell(fields[6])
  {
    NamesBefore("Year", 6);
    ColumnAt(Header, fields, "Year", 6);
  }

  /** No column before position `i` is named `name`, because none has its length. */
  lemma NamesBefore(name: string, i: nat)
    requires i <= |Header|
    requires forall j :: 0 <= j < i ==> |Header[j]| != |name|
    ensures forall j :: 0 <= j < i ==> Header[j] != name
  {
  }

  /** A column at position `i`, with no column of that name before it, reads the field at `i`. */
  lemma ColumnAt(header: seq<string>, fields: seq<string>, name: string, i: nat)
    requires i < |header| == |fields| && header[i] == name
    requires forall j :: 0 <= j < i ==> header[j] != name
    ensures Column(header, fields, name) == ReadCell(fields[i])
  {
  }

  /** The year column reads back as the year the scholar path would compute. */
  lemma YearReadsBack(year: Option<string>)
    ensures CsvYear(ReadCell(OrEmpty(year))) == ScholarYear(year)
  {
    var field := OrEmpty(year);
    if IsNaToken(field) {
      NaTokensAreNotIntegers(field);
    }
  }

  /**
   * A row written here and read by `normalize_from_csv` gives the record that
   * `normalize_from_scholarly` builds from the same bib, as long as no written
   * title, authors or venue is one of pandas' missing-value tokens.
   */
  lemma CsvRowReadsBack(bib: Bib)
    requires ReadsBack(bib)
    ensures FromCsvRow(ReadRow(Header, BibRow(bib))) == FromBib(bib)
  {
    var row := BibRow(bib);
    ReadWrittenRow(row);
    var read := FromCsvRow(ReadRow(Header, row));
    var direct := FromBib(bib);
    assert read.title == direct.title by {
      StripIdempotent(OrEmpty(bib.title));
    }
    assert read.authors == direct.authors by {
      StripIdempotent(OrEmpty(bib.author));
    }
    assert read.year == direct.year by {
      YearReadsBack(bib.year);
    }
  }

  /**
   * The quirk that keeps the round trip from being unconditional: a bib without
   * a title is written with an empty Title, which pandas reads as NaN and `str`
   * turns into the title "nan".
   */
  lemma UntitledReadsBackAsNan(bib: Bib)
    requires Strip(OrEmpty(bib.title)) == ""
    ensures FromCsvRow(ReadRow(Header, BibRow(bib))).title == "nan"
    ensures FromBib(bib).title == ""
  {
    var row := BibRow(bib);
    ReadWrittenRow(row);
    var cell := ReadRow(Header, row).title;
    assert cell == NaN by {
      assert cell == ReadCell(row[1]) && row[1] == "";
      assert IsNaToken("");
    }
    NanCellStripped();
  }

  function ReadRows(header: seq<string>, lines: seq<seq<string>>): (rows: seq<CsvRow>)
    ensures |rows| == |lines|
  {
    if lines == [] then [] else ReadRows(header, lines[..|lines| - 1]) + [ReadRow(header, lines[|lines| - 1])]
  }

  /**
   * Exporting with this script and normalizing the CSV gives, record for record,
   * what normalizing straight from the scholar client gives.
   */
  lemma CsvExportMatchesScholarly(bibs: seq<Bib>)
    requires forall bib :: bib in bibs ==> ReadsBack(bib)
    ensures CsvRecords(ReadRows(Header, BibRows(bibs))) == BibRecords(bibs)
  {
    ExportPointwise(Header, bibs);
    Pointwise(CsvRecords(ReadRows(Header, BibRows(bibs))), BibRecords(bibs));
  }

  /** The round trip record by record, for a header known only to be the written one. */
  lemma ExportPointwise(header: seq<string>, bibs: seq<Bib>)
    requires header == Header
    requires forall bib :: bib in bibs ==> ReadsBack(bib)
    ensures forall k :: 0 <= k < |bibs| ==> CsvRecords(ReadRows(header, BibRows(bibs)))[k] == BibRecords(bibs)[k]
  {
    forall k | 0 <= k < |bibs|
      ensures CsvRecords(ReadRows(header, BibRows(bibs)))[k] == BibRecords(bibs)[k]
    {
      assert bibs[k] in bibs;
      ExportAt(bibs, k);
    }
  }

  /** The k-th record read back from the export is the k-th record built directly. */
  lemma ExportAt(bibs: seq<Bib>, k: nat)
    requires k < |bibs| && ReadsBack(bibs[k])
    ensures CsvRecords(ReadRows(Header, BibRows(bibs)))[k] == BibRecords(bibs)[k]
  {
    BibRowsAt(bibs, k);
    ReadRowsAt(Header, BibRows(bibs), k);
    CsvRecordsAt(ReadRows(Header, BibRows(bibs)), k);
    BibRecordsAt(bibs, k);
    CsvRowReadsBack(bibs[k]);
  }

  lemma {:induction false} ReadRowsAt(header: seq<string>, lines: seq<seq<string>>, k: nat)
    requires k < |lines|
    ensures ReadRows(header, lines)[k] == ReadRow(header, lines[k])
  {
    var init := lines[..|lines| - 1];
    assert ReadRows(header, lines) == ReadRows(header, init) + [ReadRow(header, lines[|lines| - 1])];
    if k < |lines| - 1 {
      ReadRowsAt(header, init, k);
      assert init[k] == lines[k];
    }
  }
}
