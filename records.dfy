/**
 * The canonical publication record and the per-record extraction that turns a
 * CSV row or a scholar bibliography entry into one.
 */
module Records {
  import opened Wrappers
  import opened Text

  /** The canonical record written to publications.json; `year == None` is JSON null. */
  datatype Publication = Publication(title: string, authors: string, venue: string, year: Option<int>)

  /** Every text field of the record is stripped. */
  predicate Trimmed(p: Publication) {
    NoOuterSpace(p.title) && NoOuterSpace(p.authors) && NoOuterSpace(p.venue)
  }

  /**
   * One cell of a row as pandas hands it over: the column is missing from the
   * file, the cell was read as NaN (a blank cell, or one of pandas' missing-value
   * tokens), or the cell holds text.
   */
  datatype Cell = Absent | NaN | Str(text: string)

  /** The four columns of a Google Scholar CSV export that the normalizer reads. */
  datatype CsvRow = CsvRow(title: Cell, authors: Cell, publication: Cell, year: Cell)

  /** `str(row.get(column, ""))`: a missing column is "", a NaN cell prints as "nan". */
  function CellText(c: Cell): string
  {
    match c
    case Absent => ""
    case NaN => "nan"
    case Str(text) => text
  }

  /** A NaN text cell normalizes to the text "nan", not to "". */
  lemma NanCellStripped()
    ensures Strip(CellText(NaN)) == "nan"
  {
    StripUnpadded("nan");
  }

  /**
   * `int(year) if pd.notna(year) else None`, with ValueError and TypeError
   * caught: a missing column or a NaN cell is None, and so is text `int` rejects.
   */
  function CsvYear(c: Cell): Option<int>
  {
    match c
    case Str(text) => ParseInt(text)
    case _ => None
  }

  /** The canonical record built from one CSV row. */
  function FromCsvRow(row: CsvRow): (p: Publication)
    ensures p.year.None? <==> (row.year.Absent? || row.year.NaN? || ParseInt(row.year.text).None?)
    ensures p.year.Some? ==> p.year == ParseInt(row.year.text)
  {
    Publication(Strip(CellText(row.title)), Strip(CellText(row.authors)),
                Strip(CellText(row.publication)), CsvYear(row.year))
  }

  /** A record built from a CSV row has its title, authors and venue stripped. */
  lemma FromCsvRowTrimmed(row: CsvRow)
    ensures Trimmed(FromCsvRow(row))
  {
    StripTrims(CellText(row.title));
    StripTrims(CellText(row.authors));
    StripTrims(CellText(row.publication));
  }

  /**
   * The fields of a filled publication's "bib" mapping that the scripts read;
   * `None` is a missing key. A publication without a "bib" has every field `None`.
   */
  datatype Bib = Bib(
    title: Option<string>, author: Option<string>,
    journal: Option<string>, booktitle: Option<string>,
    year: Option<string>,
    volume: Option<string>, number: Option<string>, pages: Option<string>, publisher: Option<string>)

  /** `bib.get(key, "")`. */
  function OrEmpty(field: Option<string>): string
  {
    if field.Some? then field.value else ""
  }

  /** `bib.get("journal", "") or bib.get("booktitle", "")`, before any stripping. */
  function RawVenue(bib: Bib): string
  {
    if OrEmpty(bib.journal) != "" then OrEmpty(bib.journal) else OrEmpty(bib.booktitle)
  }

  /**
   * `int(year) if year else None` with ValueError and TypeError caught: a
   * missing or empty year is None, otherwise whatever `int` makes of the text.
   */
  function ScholarYear(year: Option<string>): Option<int>
  {
    if year.Some? && year.value != "" then ParseInt(year.value) else None
  }

  /** The canonical record built from one filled scholar publication. */
  function FromBib(bib: Bib): Publication {
    Publication(Strip(OrEmpty(bib.title)), Strip(OrEmpty(bib.author)), Strip(RawVenue(bib)), ScholarYear(bib.year))
  }

  /** A record built from a scholar bib has its title, authors and venue stripped. */
  lemma FromBibTrimmed(bib: Bib)
    ensures Trimmed(FromBib(bib))
  {
    StripTrims(OrEmpty(bib.title));
    StripTrims(OrEmpty(bib.author));
    StripTrims(RawVenue(bib));
  }

  /**
   * A journal made only of whitespace is still a non-empty string, so it wins
   * over the booktitle and the stripped venue comes out empty.
   */
  lemma BlankJournalHidesBooktitle(bib: Bib)
    requires bib.journal.Some? && bib.journal.value != [] && AllSpace(bib.journal.value)
    ensures FromBib(bib).venue == ""
  {
    StripPadded(bib.journal.value, [], []);
    assert bib.journal.value + [] + [] == bib.journal.value;
  }

  /**
   * The venue comes out empty exactly when the journal is blank and, if the
   * journal is missing or empty, the booktitle is blank too.
   */
  lemma EmptyVenue(bib: Bib)
    ensures FromBib(bib).venue == "" <==>
      AllSpace(OrEmpty(bib.journal)) && (OrEmpty(bib.journal) == "" ==> AllSpace(OrEmpty(bib.booktitle)))
  {
    StripEmptyIffBlank(RawVenue(bib));
  }

  /** A CSV year cell holding `str(n)`, however padded, reads as the year `n`. */
  lemma CsvYearOfIntText(pre: string, n: int, post: string)
    requires AllSpace(pre) && AllSpace(post)
    ensures CsvYear(Str(pre + IntToString(n) + post)) == Some(n)
  {
    ParseIntOfIntToString(pre, n, post);
  }

  /**
   * The publications whose fill succeeded, in their original order; a fill that
   * raised is `None`.
   */
  function Filled(fills: seq<Option<Bib>>): (bibs: seq<Bib>)
    ensures |bibs| <= |fills|
  {
    if fills == [] then []
    else Filled(fills[..|fills| - 1]) + (if fills[|fills| - 1].Some? then [fills[|fills| - 1].value] else [])
  }

  lemma FilledSnoc(fills: seq<Option<Bib>>, i: nat)
    requires i < |fills|
    ensures Filled(fills[..i + 1]) == Filled(fills[..i]) + (if fills[i].Some? then [fills[i].value] else [])
  {
    assert fills[..i + 1][..i] == fills[..i];
  }

  /** No fill is lost unless one raised: all succeed exactly when every publication is kept. */
  lemma {:induction false} FilledKeepsAllIffNoneFailed(fills: seq<Option<Bib>>)
    ensures |Filled(fills)| == |fills| <==> forall i :: 0 <= i < |fills| ==> fills[i].Some?
    ensures (forall i :: 0 <= i < |fills| ==> fills[i].Some?) ==>
              forall i :: 0 <= i < |fills| ==> Filled(fills)[i] == fills[i].value
  {
    if fills != [] {
      var init := fills[..|fills| - 1];
      FilledKeepsAllIffNoneFailed(init);
      assert forall i :: 0 <= i < |init| ==> init[i] == fills[i];
    }
  }
}
