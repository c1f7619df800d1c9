/**
 * generate_cv_docx.py: the "Selected Publications" section of the short Word CV.
 * The stored publications are re-ranked, cut to `max_publications` (8 by default)
 * and written one numbered paragraph each.
 */
module CvDocx {
  import opened Wrappers
  import opened Seqs
  import opened Text
  import opened Records
  import opened Ranking
  import opened Selection

  /** The placeholder shown for a publication without a year. */
  const NoDate := "n.d."

  /** The paragraph written when no publication is selected. */
  const NoPublications := "No publications available."

  /** `pub.get("year") or "n.d."` as the f-string prints it: a missing, null or zero year is undated. */
  function YearText(year: Option<int>): (y: string)
    ensures y == NoDate <==> year == None || year == Some(0)
  {
    if year == None || year == Some(0) then NoDate else IntToString(year.value)
  }

  /** A dated publication shows its year, and reading that text back gives the year. */
  lemma YearTextRoundTrip(year: int)
    requires year != 0
    ensures ParseInt(YearText(Some(year))) == Some(year)
  {
    assert "" + IntToString(year) + "" == IntToString(year);
    ParseIntOfIntToString("", year, "");
  }

  /** The line `f"{authors} ({year}). {title}. {venue}."` of one publication. */
  function PublicationLine(p: Publication): string {
    p.authors + " (" + YearText(p.year) + "). " + p.title + ". " + p.venue + "."
  }

  /**
   * The authors come first, the year text in the parentheses right after them,
   * then the title between "). " and ". ", and the venue with a closing full stop
   * last; nothing else is in the line.
   */
  lemma PublicationLineLayout(p: Publication)
    ensures var line := PublicationLine(p);
      var a := |p.authors|; var y := |YearText(p.year)|; var t := |p.title|;
      && |line| == a + y + t + |p.venue| + 8
      && line[..a] == p.authors
      && line[a..a + 2 + y] == " (" + YearText(p.year)
      && line[a + 2 + y..a + y + t + 7] == "). " + p.title + ". "
      && line[|line| - |p.venue| - 1..] == p.venue + "."
  {
    LineHead(p.authors, YearText(p.year), p.title, p.venue);
    LineTail(p.authors, YearText(p.year), p.title, p.venue);
  }

  /** The line begins with the authors, " (" and the year text. */
  lemma LineHead(authors: string, year: string, title: string, venue: string)
    ensures var line := authors + " (" + year + "). " + title + ". " + venue + ".";
      && |line| == |authors| + |year| + |title| + |venue| + 8
      && line[..|authors|] == authors
      && line[|authors|..|authors| + 2 + |year|] == " (" + year
  {
    var head := authors + " (" + year;
    var rest := "). " + title + ". " + venue + ".";
    assert authors + " (" + year + "). " + title + ". " + venue + "." == head + rest;
    assert head[..|authors|] == authors;
    assert head[|authors|..] == " (" + year;
  }

  /** After the year text come "). ", the title and ". ", and the venue with a full stop ends the line. */
  lemma LineTail(authors: string, year: string, title: string, venue: string)
    ensures var line := authors + " (" + year + "). " + title + ". " + venue + ".";
      && line[|authors| + 2 + |year|..|authors| + |year| + |title| + 7] == "). " + title + ". "
      && line[|line| - |venue| - 1..] == venue + "."
  {
    var head := authors + " (" + year;
    var middle := "). " + title + ". ";
    var tail := venue + ".";
    assert authors + " (" + year + "). " + title + ". " + venue + "." == head + middle + tail;
    assert (head + middle + tail)[|head|..|head| + |middle|] == middle;
  }

  /** The text in the parentheses of a dated publication's line reads back as its year. */
  lemma PublicationLineShowsYear(p: Publication)
    requires p.year.Some? && p.year.value != 0
    ensures var a := |p.authors|; var y := |YearText(p.year)|;
      ParseInt(PublicationLine(p)[a + 2..a + 2 + y]) == p.year
  {
    PublicationLineLayout(p);
    YearInParentheses(PublicationLine(p), |p.authors|, p.year.value);
  }

  /** Text that holds " (" and a year's text at position `a` shows that year right after the parenthesis. */
  lemma YearInParentheses(line: string, a: nat, year: int)
    requires year != 0
    requires a + 2 + |YearText(Some(year))| <= |line|
    requires line[a..a + 2 + |YearText(Some(year))|] == " (" + YearText(Some(year))
    ensures ParseInt(line[a + 2..a + 2 + |YearText(Some(year))|]) == Some(year)
  {
    var text := YearText(Some(year));
    AfterPrefix(line, a, a + 2 + |text|, " (", text);
    YearTextRoundTrip(year);
  }

  /** A paragraph of the section: numbered (style "List Number") or plain. */
  datatype Paragraph = Numbered(text: string) | Plain(text: string)

  /**
   * The publication paragraphs: one numbered line per selected publication in
   * order, or the single plain placeholder when nothing is selected.
   */
  method PublicationParagraphs(used: seq<Publication>) returns (paragraphs: seq<Paragraph>)
    ensures used == [] ==> paragraphs == [Plain(NoPublications)]
    ensures used != [] ==> |paragraphs| == |used|
    ensures used != [] ==> forall i :: 0 <= i < |used| ==> paragraphs[i] == Numbered(PublicationLine(used[i]))
  {
    if used == [] {
      return [Plain(NoPublications)];
    }
    paragraphs := [];
    for i := 0 to |used|
      invariant |paragraphs| == i
      invariant forall k :: 0 <= k < i ==> paragraphs[k] == Numbered(PublicationLine(used[k]))
    {
      paragraphs := paragraphs + [Numbered(PublicationLine(used[i]))];
    }
  }

  /**
   * `main`, as far as publications go: load publications.json (an empty list when
   * the file is missing), sort it in place by the ranking rule, keep the first
   * `max_publications` and write their paragraphs.
   */
  method GeneratePublications(jsonExists: bool, stored: seq<Publication>, maxPublications: Setting)
    returns (used: seq<Publication>, paragraphs: seq<Paragraph>)
    ensures var loaded := if jsonExists then stored else [];
      used == Head(Rank(loaded), Stop(maxPublications, 8))
    ensures !jsonExists ==> used == [] && paragraphs == [Plain(NoPublications)]
    ensures Ranked(used) && multiset(used) <= multiset(if jsonExists then stored else [])
    ensures maxPublications.Unset? ==> |used| == Min(8, if jsonExists then |stored| else 0)
    ensures used == [] ==> paragraphs == [Plain(NoPublications)]
    ensures used != [] ==> |paragraphs| == |used|
    ensures used != [] ==> forall i :: 0 <= i < |used| ==> paragraphs[i] == Numbered(PublicationLine(used[i]))
  {
    var publications := if jsonExists then stored else [];
    ghost var loaded := publications;
    publications := Rank(publications);
    RankRanked(loaded);
    used := Head(publications, Stop(maxPublications, 8));
    HeadKeepsTheBest(publications, Stop(maxPublications, 8));
    HeadSubMultiset(publications, Stop(maxPublications, 8));
    paragraphs := PublicationParagraphs(used);
  }
}
