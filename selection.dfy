/**
 * How both CV generators pick the publications they show: a `max_publications`
 * setting read from the profile's config with a default, and the Python slice
 * `publications[:max_pubs]` of the ranked list.
 */
module Selection {
  import opened Wrappers
  import opened Records
  import opened Ranking

  /**
   * `max_publications` as `profile.get("config", {}).get(..., {}).get("max_publications", d)`
   * finds it: missing on the config path, present as YAML null, or an integer.
   */
  datatype Setting = Unset | Null | Value(n: int)

  /** The slice bound the setting gives: the default when unset, no bound when null. */
  function Stop(setting: Setting, default: int): Option<int>
  {
    match setting
    case Unset => Some(default)
    case Null => None
    case Value(n) => Some(n)
  }

  function Min(a: int, b: int): int {
    if a <= b then a else b
  }

  function Max(a: int, b: int): int {
    if a <= b then b else a
  }

  /**
   * Python's `s[:stop]`: no bound keeps everything, a non-negative bound keeps at
   * most that many, and a negative bound drops that many from the end.
   */
  function Head<T>(s: seq<T>, stop: Option<int>): (r: seq<T>)
    ensures |r| <= |s| && r == s[..|r|]
    ensures stop.None? ==> r == s
    ensures stop.Some? && stop.value >= 0 ==> |r| == Min(stop.value, |s|)
    ensures stop.Some? && stop.value < 0 ==> |r| == Max(0, |s| + stop.value)
  {
    match stop
    case None => s
    case Some(n) =>
      if n >= 0 then (if n <= |s| then s[..n] else s)
      else (if |s| + n >= 0 then s[..|s| + n] else [])
  }

  /** A smaller non-negative bound takes a prefix of what a larger one takes. */
  lemma HeadMonotone<T>(s: seq<T>, a: int, b: int)
    requires 0 <= a <= b
    ensures var short := Head(s, Some(a)); var long := Head(s, Some(b));
      |short| <= |long| && short == long[..|short|]
  {
    var short := Head(s, Some(a));
    var long := Head(s, Some(b));
    assert short == s[..|short|] && long == s[..|long|];
  }

  /** A slice takes records of the list and nothing else. */
  lemma HeadSubMultiset<T>(s: seq<T>, stop: Option<int>)
    ensures multiset(Head(s, stop)) <= multiset(s)
  {
    var used := Head(s, stop);
    assert s == used + s[|used|..];
  }

  /**
   * Slicing a ranked list keeps its best records: nothing left out ranks above
   * anything kept.
   */
  lemma HeadKeepsTheBest(s: seq<Publication>, stop: Option<int>)
    requires Ranked(s)
    ensures var used := Head(s, stop);
      Ranked(used) &&
      forall i, j :: 0 <= i < |used| <= j < |s| ==> !KeyLt(RankKey(used[i]), RankKey(s[j]))
  {
    var used := Head(s, stop);
    forall i, j | 0 <= i < j < |used|
      ensures !KeyLt(RankKey(used[i]), RankKey(used[j]))
    {
      assert used[i] == s[i] && used[j] == s[j];
    }
    forall i, j | 0 <= i < |used| <= j < |s|
      ensures !KeyLt(RankKey(used[i]), RankKey(s[j]))
    {
      assert used[i] == s[i];
    }
  }
}
