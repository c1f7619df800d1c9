/**
 * generate_cv_tex.py: the publications handed to the LaTeX template for the short
 * and the long CV. Both come from one defensively re-ranked list, cut to the
 * short CV's `max_publications` (8 by default) and the long CV's (1000 by default).
 */
module CvTex {
  import opened Wrappers
  import opened Records
  import opened Ranking
  import opened Selection

  const ShortDefault := 8
  const LongDefault := 1000

  /** The two `max_publications` settings under `config.short_cv` and `config.long_cv`. */
  datatype CvConfig = CvConfig(shortMax: Setting, longMax: Setting)

  /** `render_tex`'s choice of publications for one version of the CV. */
  function Selected(publications: seq<Publication>, config: CvConfig, shortVersion: bool): (used: seq<Publication>)
    ensures |used| <= |publications| && used == publications[..|used|]
    ensures shortVersion && config.shortMax.Unset? ==> |used| == Min(ShortDefault, |publications|)
    ensures !shortVersion && config.longMax.Unset? ==> |used| == Min(LongDefault, |publications|)
    ensures (if shortVersion then config.shortMax else config.longMax).Null? ==> used == publications
  {
    if shortVersion then Head(publications, Stop(config.shortMax, ShortDefault))
    else Head(publications, Stop(config.longMax, LongDefault))
  }

  /** The bound a version of the CV slices with, when it is a non-negative number. */
  function Bound(setting: Setting, default: int): Option<nat> {
    match Stop(setting, default)
    case Some(n) => if n >= 0 then Some(n) else None
    case None => None
  }

  /**
   * Both versions slice the same ranked list, so when the short bound is no
   * larger than the long one the short CV's publications begin the long CV's.
   */
  lemma ShortSelectionIsPrefixOfLong(publications: seq<Publication>, config: CvConfig)
    requires Bound(config.shortMax, ShortDefault).Some? && Bound(config.longMax, LongDefault).Some?
    requires Bound(config.shortMax, ShortDefault).value <= Bound(config.longMax, LongDefault).value
    ensures var short := Selected(publications, config, true);
      var long := Selected(publications, config, false);
      |short| <= |long| && short == long[..|short|]
  {
    HeadMonotone(publications, Bound(config.shortMax, ShortDefault).value, Bound(config.longMax, LongDefault).value);
  }

  /**
   * `main`: load publications.json (an empty list when it is missing), sort it
   * again in place by the ranking rule, and select for the short and the long CV.
   */
  method GenerateSelections(jsonExists: bool, stored: seq<Publication>, config: CvConfig)
    returns (shortUsed: seq<Publication>, longUsed: seq<Publication>)
    ensures var loaded := if jsonExists then stored else [];
      && shortUsed == Selected(Rank(loaded), config, true)
      && longUsed == Selected(Rank(loaded), config, false)
    ensures !jsonExists ==> shortUsed == [] && longUsed == []
    ensures jsonExists && Ranked(stored) ==> shortUsed == stored[..|shortUsed|] && longUsed == stored[..|longUsed|]
    ensures Ranked(shortUsed) && Ranked(longUsed)
    ensures config == CvConfig(Unset, Unset) ==> |shortUsed| <= |longUsed| && shortUsed == longUsed[..|shortUsed|]
  {
    var publications := if jsonExists then stored else [];
    ghost var loaded := publications;
    // Sort again defensively (year descending).
    publications := Rank(publications);
    if jsonExists && Ranked(stored) {
      RankOfRanked(stored);
    }
    RankRanked(loaded);
    shortUsed := Selected(publications, config, true);
    longUsed := Selected(publications, config, false);
    HeadKeepsTheBest(publications, Stop(config.shortMax, ShortDefault));
    HeadKeepsTheBest(publications, Stop(config.longMax, LongDefault));
    if config == CvConfig(Unset, Unset) {
      ShortSelectionIsPrefixOfLong(publications, config);
    }
  }
}
