/**
 * `TVModelEntry`: one video file of the show, with the season and episode
 * parsed from its file name, the episode number a user may pin it to, and
 * the position the table last gave it. Its comparison operators are the
 * only ordering the table's sort uses.
 */
module ModelEntry {
  import opened Options
  import opened Parser

  datatype TVModelEntry = TVModelEntry(
    filePath: string,
    title: string,
    season: int,            // -1 when the file name has no `[sS]<digits>`
    episode: int,           // -1 when the file name has no `[eE]<digits>`
    manualEpisode: Option<int>,
    derivedEpisode: int)    // -1 until the table first renumbers

  /** The `filename` property: the last component of the entry's path. */
  function FileName(e: TVModelEntry): string
  {
    BaseName(e.filePath)
  }

  /**
   * The constructor. The `title`, `season` and `episode` arguments are
   * accepted and ignored: the title is always "unknown" and the numbers come
   * from the file name alone.
   */
  method NewEntry(path: string, title: string, season: int, episode: int) returns (e: TVModelEntry)
    ensures e.filePath == path && e.title == "unknown"
    ensures (e.season, e.episode) == ParseName(FileName(e))
    ensures e.manualEpisode == None && e.derivedEpisode == -1
  {
    var name := BaseName(path);
    var parsedSeason := ScanMarkers(name, Season);
    var parsedEpisode := ScanMarkers(name, Episode);
    e := TVModelEntry(path, "unknown", parsedSeason, parsedEpisode, None, -1);
  }

  /** Putting a file in another directory does not change what is parsed from it. */
  lemma EntryIgnoresDirectory(dir: string, name: string)
    requires dir == [] || dir[|dir| - 1] == '/'
    requires name != "" && name != "." && '/' !in name
    ensures LastMarkerValue(BaseName(dir + name), Season) == ParseName(name).0
    ensures LastMarkerValue(BaseName(dir + name), Episode) == ParseName(name).1
  {
    BaseNameOfJoin(dir, name);
  }

  // ---------------------------------------------------------------------
  // Comparison operators

  predicate HasOverride(e: TVModelEntry)
  {
    e.manualEpisode.Some?
  }

  /** The manual override when there is one, the parsed episode otherwise. */
  function EffectiveEpisode(e: TVModelEntry): int
  {
    if HasOverride(e) then e.manualEpisode.value else e.episode
  }

  /** `__eq__`. */
  predicate Eq(a: TVModelEntry, b: TVModelEntry)
  {
    if a.season != b.season then false
    else if EffectiveEpisode(a) != EffectiveEpisode(b) then false
    else if !HasOverride(a) && !HasOverride(b) then true
    else if HasOverride(a) && HasOverride(b) then true
    else false
  }

  /** `__lt__`: after the season test it compares effective episodes without looking at seasons again. */
  predicate Lt(a: TVModelEntry, b: TVModelEntry)
  {
    if a.season < b.season then true
    else if EffectiveEpisode(a) == EffectiveEpisode(b) then !HasOverride(a) && HasOverride(b)
    else EffectiveEpisode(a) < EffectiveEpisode(b)
  }

  /** `__gt__`, written out in the source separately from `__lt__`. */
  predicate Gt(a: TVModelEntry, b: TVModelEntry)
  {
    if a.season > b.season then true
    else if EffectiveEpisode(a) == EffectiveEpisode(b) then HasOverride(a) && !HasOverride(b)
    else EffectiveEpisode(a) > EffectiveEpisode(b)
  }

  /**
   * The order the operators stand for within a season: lexicographic on
   * (effective episode, has an override), with "no override" first on a tie.
   */
  predicate KeyLess(a: TVModelEntry, b: TVModelEntry)
  {
    EffectiveEpisode(a) < EffectiveEpisode(b)
    || (EffectiveEpisode(a) == EffectiveEpisode(b) && !HasOverride(a) && HasOverride(b))
  }

  /** Equality is agreement on season, effective episode and override presence, and is an equivalence. */
  lemma EqIsKeyEquality(a: TVModelEntry, b: TVModelEntry, c: TVModelEntry)
    ensures Eq(a, b) <==>
      a.season == b.season && EffectiveEpisode(a) == EffectiveEpisode(b) && HasOverride(a) == HasOverride(b)
    ensures Eq(a, a)
    ensures Eq(a, b) ==> Eq(b, a)
    ensures Eq(a, b) && Eq(b, c) ==> Eq(a, c)
  {
  }

  /** Equal entries are never ordered either way. */
  lemma EqExcludesLt(a: TVModelEntry, b: TVModelEntry)
    ensures Eq(a, b) ==> !Lt(a, b) && !Lt(b, a)
  {
  }

  /** No entry is less than itself, whatever its season. */
  lemma LtIrreflexive(a: TVModelEntry)
    ensures !Lt(a, a)
  {
  }

  /** `a > b` is `b < a` for every pair, across seasons too. */
  lemma GtIsConverseOfLt(a: TVModelEntry, b: TVModelEntry)
    ensures Gt(a, b) == Lt(b, a)
  {
  }

  /** Within one season `__lt__` is exactly the key order, and exactly one of `a < b`, `a == b`, `b < a` holds. */
  lemma LtWithinSeason(a: TVModelEntry, b: TVModelEntry)
    requires a.season == b.season
    ensures Lt(a, b) <==> KeyLess(a, b)
    ensures Lt(a, b) || Eq(a, b) || Lt(b, a)
    ensures !(Lt(a, b) && Eq(a, b)) && !(Lt(a, b) && Lt(b, a)) && !(Eq(a, b) && Lt(b, a))
  {
  }

  /** Across seasons `__lt__` is not asymmetric: season 1 episode 5 and season 2 episode 3 are each less than the other. */
  lemma LtNotAsymmetricAcrossSeasons()
    ensures var a := TVModelEntry("S01E05.mkv", "unknown", 1, 5, None, -1);
            var b := TVModelEntry("S02E03.mkv", "unknown", 2, 3, None, -1);
            Lt(a, b) && Lt(b, a)
  {
  }

  /** The key order is a strict weak order: irreflexive and transitive, with incomparability transitive too. */
  lemma KeyLessIsStrictWeakOrder(a: TVModelEntry, b: TVModelEntry, c: TVModelEntry)
    ensures !KeyLess(a, a)
    ensures KeyLess(a, b) && KeyLess(b, c) ==> KeyLess(a, c)
    ensures !KeyLess(a, b) && !KeyLess(b, c) ==> !KeyLess(a, c)
  {
  }
}
