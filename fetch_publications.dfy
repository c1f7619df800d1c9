/**
 * fetch_publications.py: normalize the rows of a Google Scholar CSV export, or
 * the publications the scholar client fills in, into ranked canonical records,
 * and choose which of the two sources to use.
 */
module FetchPublications {
  import opened Wrappers
  import opened Seqs
  import opened Text
  import opened Records
  import opened Ranking

  /** Why no publications.json gets written. */
  datatype FetchError =
    | SourceUnavailable  // FileNotFoundError: no CSV and the scholar client switched off
    | FillFailed         // a `scholarly.fill` raised; nothing catches it in this script

  /** The canonical records of the CSV rows, one per row, in row order. */
  function CsvRecords(rows: seq<CsvRow>): (pubs: seq<Publication>)
    ensures |pubs| == |rows|
  {
    if rows == [] then [] else CsvRecords(rows[..|rows| - 1]) + [FromCsvRow(rows[|rows| - 1])]
  }

  /** The canonical records of filled scholar publications, one per bib, in order. */
  function BibRecords(bibs: seq<Bib>): (pubs: seq<Publication>)
    ensures |pubs| == |bibs|
  {
    if bibs == [] then [] else BibRecords(bibs[..|bibs| - 1]) + [FromBib(bibs[|bibs| - 1])]
  }

  lemma {:induction false} CsvRecordsAt(rows: seq<CsvRow>, k: nat)
    requires k < |rows|
    ensures CsvRecords(rows)[k] == FromCsvRow(rows[k])
  {
    var init := rows[..|rows| - 1];
    assert CsvRecords(rows) == CsvRecords(init) + [FromCsvRow(rows[|rows| - 1])];
    if k < |rows| - 1 {
      CsvRecordsAt(init, k);
      assert init[k] == rows[k];
    }
  }

  lemma {:induction false} BibRecordsAt(bibs: seq<Bib>, k: nat)
    requires k < |bibs|
    ensures BibRecords(bibs)[k] == FromBib(bibs[k])
  {
    var init := bibs[..|bibs| - 1];
    assert BibRecords(bibs) == BibRecords(init) + [FromBib(bibs[|bibs| - 1])];
    if k < |bibs| - 1 {
      BibRecordsAt(init, k);
      assert init[k] == bibs[k];
    }
  }

  /** One more row adds its record. */
  lemma CsvStep(rows: seq<CsvRow>, i: nat)
    requires i < |rows|
    ensures CsvRecords(rows[..i + 1]) == CsvRecords(rows[..i]) + [FromCsvRow(rows[i])]
  {
    assert rows[..i + 1][..i] == rows[..i];
  }

  lemma BibRecordsSnoc(bibs: seq<Bib>, bib: Bib)
    ensures BibRecords(bibs + [bib]) == BibRecords(bibs) + [FromBib(bib)]
  {
    assert (bibs + [bib])[..|bibs|] == bibs;
  }

  lemma ScholarStep(fills: seq<Option<Bib>>, i: nat)
    requires i < |fills| && fills[i].Some?
    ensures Filled(fills[..i + 1]) == Filled(fills[..i]) + [fills[i].value]
    ensures BibRecords(Filled(fills[..i + 1])) == BibRecords(Filled(fills[..i])) + [FromBib(fills[i].value)]
  {
    FilledSnoc(fills, i);
    BibRecordsSnoc(Filled(fills[..i]), fills[i].value);
  }

  lemma {:induction false} CsvRecordsTrimmed(rows: seq<CsvRow>)
    ensures forall p :: p in CsvRecords(rows) ==> Trimmed(p)
  {
    if rows != [] {
      CsvRecordsTrimmed(rows[..|rows| - 1]);
      FromCsvRowTrimmed(rows[|rows| - 1]);
    }
  }

  lemma {:induction false} BibRecordsTrimmed(bibs: seq<Bib>)
    ensures forall p :: p in BibRecords(bibs) ==> Trimmed(p)
  {
    if bibs != [] {
      BibRecordsTrimmed(bibs[..|bibs| - 1]);
      FromBibTrimmed(bibs[|bibs| - 1]);
    }
  }

  /** Sorting keeps the records, so it keeps them trimmed. */
  lemma RankKeepsTrimmed(s: seq<Publication>)
    requires forall p :: p in s ==> Trimmed(p)
    ensures forall p :: p in Rank(s) ==> Trimmed(p)
  {
    forall p | p in Rank(s)
      ensures Trimmed(p)
    {
      assert p in multiset(Rank(s));
    }
  }

  /**
   * `normalize_from_csv`: one record per row, appended in row order, then sorted
   * in place by the ranking rule.
   */
  method NormalizeFromCsv(rows: seq<CsvRow>) returns (publications: seq<Publication>)
    ensures publications == Rank(CsvRecords(rows))
    ensures IsStableRanking(publications, CsvRecords(rows))
    ensures |publications| == |rows| && multiset(publications) == multiset(CsvRecords(rows))
    ensures forall p :: p in publications ==> Trimmed(p)
  {
    publications := [];
    for i := 0 to |rows|
      invariant publications == CsvRecords(rows[..i])
    {
      CsvStep(rows, i);
      publications := publications + [FromCsvRow(rows[i])];
    }
    WholeSlice(rows);
    publications := Rank(publications);
    CsvOutcome(rows);
  }

  /** What normalizing the CSV rows produces. */
  lemma CsvOutcome(rows: seq<CsvRow>)
    ensures var records := CsvRecords(rows);
      && IsStableRanking(Rank(records), records)
      && |Rank(records)| == |rows| && multiset(Rank(records)) == multiset(records)
      && forall p :: p in Rank(records) ==> Trimmed(p)
  {
    RankIsStableRanking(CsvRecords(rows));
    CsvRecordsTrimmed(rows);
    RankKeepsTrimmed(CsvRecords(rows));
  }

  /**
   * `normalize_from_scholarly`: fill every publication, one record per filled
   * bib, then sort. A fill that raises aborts the whole normalization.
   */
  method NormalizeFromScholarly(fills: seq<Option<Bib>>) returns (result: Result<seq<Publication>, FetchError>)
    ensures result.Failure? <==> exists i :: 0 <= i < |fills| && fills[i].None?
    ensures result.Failure? ==> result.error == FillFailed
    ensures result.Success? ==> result.value == Rank(BibRecords(Filled(fills)))
    ensures result.Success? ==> IsStableRanking(result.value, BibRecords(Filled(fills)))
    ensures result.Success? ==> |result.value| == |fills| && forall p :: p in result.value ==> Trimmed(p)
  {
    var publications := [];
    for i := 0 to |fills|
      invariant |Filled(fills[..i])| == i
      invariant publications == BibRecords(Filled(fills[..i]))
    {
      if fills[i].None? {
        assert exists j :: 0 <= j < |fills| && fills[j].None? by {
          assert fills[i].None?;
        }
        return Failure(FillFailed);
      }
      ScholarStep(fills, i);
      publications := publications + [FromBib(fills[i].value)];
    }
    WholeSlice(fills);
    publications := Rank(publications);
    ScholarlyOutcome(fills);
    result := Success(publications);
  }

  /** What a run in which every publication got filled produces. */
  lemma ScholarlyOutcome(fills: seq<Option<Bib>>)
    requires |Filled(fills)| == |fills|
    ensures forall i :: 0 <= i < |fills| ==> fills[i].Some?
    ensures var records := BibRecords(Filled(fills));
      && IsStableRanking(Rank(records), records)
      && |Rank(records)| == |fills|
      && forall p :: p in Rank(records) ==> Trimmed(p)
  {
    FilledKeepsAllIffNoneFailed(fills);
    RankIsStableRanking(BibRecords(Filled(fills)));
    BibRecordsTrimmed(Filled(fills));
    RankKeepsTrimmed(BibRecords(Filled(fills)));
  }

  /**
   * `main`: the CSV export wins when it exists; otherwise the scholar client is
   * used when switched on; otherwise FileNotFoundError. A success is exactly what
   * gets written to publications.json; a failure writes nothing.
   */
  method Run(csvExists: bool, useScholarly: bool, rows: seq<CsvRow>, fills: seq<Option<Bib>>)
    returns (written: Result<seq<Publication>, FetchError>)
    ensures csvExists ==> written == Success(Rank(CsvRecords(rows)))
    ensures !csvExists && !useScholarly ==> written == Failure(SourceUnavailable)
    ensures !csvExists && useScholarly ==>
              (written.Success? <==> forall i :: 0 <= i < |fills| ==> fills[i].Some?)
    ensures !csvExists && useScholarly && written.Success? ==> written.value == Rank(BibRecords(Filled(fills)))
    ensures written.Success? ==> Ranked(written.value) && forall p :: p in written.value ==> Trimmed(p)
  {
    if csvExists {
      var publications := NormalizeFromCsv(rows);
      written := Success(publications);
    } else if useScholarly {
      written := NormalizeFromScholarly(fills);
    } else {
      written := Failure(SourceUnavailable);
    }
  }

  /** The strings pandas' `read_csv` reads as NaN by default (among them the empty cell). */
  const NaTokens: set<string> := {
    "", "#N/A", "#N/A N/A", "#NA", "-1.#IND", "-1.#QNAN", "-NaN", "-nan", "1.#IND", "1.#QNAN",
    "<NA>", "N/A", "NA", "NULL", "NaN", "None", "n/a", "nan", "null"
  }

  /** `field` is a token pandas reads as a missing value. */
  predicate IsNaToken(field: string) {
    field in NaTokens
  }

  /** One field of the CSV file as pandas hands it to the normalizer. */
  function ReadCell(field: string): Cell
  {
    if IsNaToken(field) then NaN else Str(field)
  }

  /** The first position of `name` in the header. */
  function IndexOf(header: seq<string>, name: string): (i: nat)
    requires name in header
    ensures i < |header| && header[i] == name
    ensures forall j :: 0 <= j < i ==> header[j] != name
  {
    if header[0] == name then 0 else 1 + IndexOf(header[1..], name)
  }

  /**
   * `row.get(name, ...)` on a row pandas read under `header`: a column not in the
   * header is absent; a row too short for the column reads as NaN.
   */
  function Column(header: seq<string>, fields: seq<string>, name: string): (c: Cell)
    ensures c.Absent? <==> name !in header
  {
    if name !in header then Absent
    else if IndexOf(header, name) < |fields| then ReadCell(fields[IndexOf(header, name)])
    else NaN
  }

  /** The four cells the normalizer reads from one CSV line. */
  function ReadRow(header: seq<string>, fields: seq<string>): CsvRow {
    CsvRow(Column(header, fields, "Title"), Column(header, fields, "Authors"),
           Column(header, fields, "Publication"), Column(header, fields, "Year"))
  }

  /** Text with a non-digit after its first character is no integer literal. */
  lemma NotIntegerWithNonDigit(t: string, k: nat)
    requires NoOuterSpace(t) && 1 <= k < |t| && !IsDigit(t[k])
    ensures ParseInt(t) == None
  {
    StripUnpadded(t);
    ParseSignedRejects(t, k);
  }

  /** None of pandas' missing-value tokens is an integer literal. */
  lemma NaTokensAreNotIntegers(t: string)
    requires IsNaToken(t)
    ensures ParseInt(t) == None
  {
    if t != "" {
      var k := if t == "-1.#IND" || t == "-1.#QNAN" then 2 else 1;
      assert NoOuterSpace(t) && k < |t| && !IsDigit(t[k]);
      NotIntegerWithNonDigit(t, k);
    }
  }

  /** An absent or unparseable CSV year is None, never an error. */
  lemma CsvYearUnset(row: CsvRow)
    requires row.year.Absent? || row.year.NaN? || (row.year.Str? && ParseInt(row.year.text) == None)
    ensures FromCsvRow(row).year == None
  {
  }
}
