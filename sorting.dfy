/**
 * The sort the table applies to its entries (`sorted(entries)` and
 * `entries.sort()`), which compares with `__lt__` only. It is modelled as a
 * stable insertion sort on `Lt`: an element moves left past exactly the
 * elements it is less than. Within one season `Lt` is a strict weak order
 * and any stable sort gives this result; across seasons it is not, and only
 * the permutation property is claimed.
 */
module Sorting {
  import opened ModelEntry

  /** Insert `x`, which came after every element of `s`, into the sorted `s`. */
  function Insert(x: TVModelEntry, s: seq<TVModelEntry>): (r: seq<TVModelEntry>)
    ensures |r| == |s| + 1
    ensures multiset(r) == multiset(s) + multiset{x}
  {
    if s == [] then [x]
    else if Lt(x, s[|s| - 1]) then
      assert s == s[..|s| - 1] + [s[|s| - 1]];
      Insert(x, s[..|s| - 1]) + [s[|s| - 1]]
    else s + [x]
  }

  function SortEntries(es: seq<TVModelEntry>): (r: seq<TVModelEntry>)
    ensures |r| == |es|
    ensures multiset(r) == multiset(es)
  {
    if es == [] then []
    else
      assert es == es[..|es| - 1] + [es[|es| - 1]];
      Insert(es[|es| - 1], SortEntries(es[..|es| - 1]))
  }

  /** Every entry is of season `season`. */
  predicate AllInSeason(s: seq<TVModelEntry>, season: int)
  {
    forall i :: 0 <= i < |s| ==> s[i].season == season
  }

  /** Ordered by (effective episode, has an override): no entry is key-less than one before it. */
  predicate KeySorted(s: seq<TVModelEntry>)
  {
    forall i, j :: 0 <= i < j < |s| ==> !KeyLess(s[j], s[i])
  }

  lemma InSeasonByMultiset(s: seq<TVModelEntry>, t: seq<TVModelEntry>, season: int)
    requires multiset(s) == multiset(t) && AllInSeason(t, season)
    ensures AllInSeason(s, season)
  {
    forall i | 0 <= i < |s| ensures s[i].season == season {
      assert s[i] in multiset(t);
    }
  }

  /** Appending an element that is not key-less than any element keeps a sequence sorted. */
  lemma SortedSnoc(t: seq<TVModelEntry>, y: TVModelEntry)
    requires KeySorted(t)
    requires forall z :: z in t ==> !KeyLess(y, z)
    ensures KeySorted(t + [y])
  {
    var u := t + [y];
    forall i, j | 0 <= i < j < |u| ensures !KeyLess(u[j], u[i]) {
      if j == |t| {
        assert u[i] in t;
      }
    }
  }

  lemma {:induction false} InsertSorted(x: TVModelEntry, s: seq<TVModelEntry>, season: int)
    requires KeySorted(s) && AllInSeason(s, season) && x.season == season
    ensures KeySorted(Insert(x, s))
  {
    if s != [] {
      var last := s[|s| - 1];
      var init := s[..|s| - 1];
      LtWithinSeason(x, last);
      if Lt(x, last) {
        InsertSorted(x, init, season);
        var t := Insert(x, init);
        forall z | z in t ensures !KeyLess(last, z) {
          assert z in multiset(init) + multiset{x};
          if z != x {
            var k :| 0 <= k < |init| && init[k] == z;
            assert s[k] == z;
          }
        }
        SortedSnoc(t, last);
      } else {
        forall z | z in s ensures !KeyLess(x, z) {
          var k :| 0 <= k < |s| && s[k] == z;
          KeyLessIsStrictWeakOrder(x, last, z);
        }
        SortedSnoc(s, x);
      }
    }
  }

  /** The entries of `s` whose key (effective episode, has an override) is (`ep`, `pinned`), in order. */
  function WithKey(s: seq<TVModelEntry>, ep: int, pinned: bool): (r: seq<TVModelEntry>)
    ensures |r| <= |s|
    ensures forall i :: 0 <= i < |r| ==> EffectiveEpisode(r[i]) == ep && HasOverride(r[i]) == pinned
  {
    if s == [] then []
    else
      var last := s[|s| - 1];
      assert s == s[..|s| - 1] + [last];
      WithKey(s[..|s| - 1], ep, pinned)
        + (if EffectiveEpisode(last) == ep && HasOverride(last) == pinned then [last] else [])
  }

  /** Filtering an appended sequence: the filter of the front, then `y` if it has the key. */
  lemma WithKeySnoc(s: seq<TVModelEntry>, y: TVModelEntry, ep: int, pinned: bool)
    ensures WithKey(s + [y], ep, pinned)
      == WithKey(s, ep, pinned) + (if EffectiveEpisode(y) == ep && HasOverride(y) == pinned then [y] else [])
  {
    assert (s + [y])[..|s|] == s;
  }

  /** Within one season, inserting never moves `x` past an entry with the same key. */
  lemma {:induction false} InsertIsStable(x: TVModelEntry, s: seq<TVModelEntry>, season: int, ep: int, pinned: bool)
    requires AllInSeason(s, season) && x.season == season
    ensures WithKey(Insert(x, s), ep, pinned) == WithKey(s + [x], ep, pinned)
  {
    if s == [] {
      assert [] + [x] == [x];
    } else {
      var last := s[|s| - 1];
      var init := s[..|s| - 1];
      assert s == init + [last];
      if Lt(x, last) {
        LtWithinSeason(x, last);
        assert Insert(x, s) == Insert(x, init) + [last];
        InsertIsStable(x, init, season, ep, pinned);
        WithKeySnoc(Insert(x, init), last, ep, pinned);
        WithKeySnoc(init, x, ep, pinned);
        WithKeySnoc(init, last, ep, pinned);
        WithKeySnoc(s, x, ep, pinned);
      }
    }
  }

  /**
   * The sort is stable within a season: the entries that share a key keep
   * their input order, so ties (equal parsed episodes, or files without
   * markers) come out in the order they were given.
   */
  lemma {:induction false} SortIsStable(es: seq<TVModelEntry>, season: int, ep: int, pinned: bool)
    requires AllInSeason(es, season)
    ensures WithKey(SortEntries(es), ep, pinned) == WithKey(es, ep, pinned)
  {
    if es != [] {
      var init := es[..|es| - 1];
      var last := es[|es| - 1];
      var t := SortEntries(init);
      assert SortEntries(es) == Insert(last, t);
      assert AllInSeason(init, season);
      SortIsStable(init, season, ep, pinned);
      InSeasonByMultiset(t, init, season);
      InsertIsStable(last, t, season, ep, pinned);
      WithKeySnoc(t, last, ep, pinned);
      assert es == init + [last];
      WithKeySnoc(init, last, ep, pinned);
    }
  }

  /**
   * Sorting is a permutation (see the contract of SortEntries), keeps every
   * entry in the season they share, and, when they all share one, orders
   * them by (effective episode, has an override).
   */
  lemma {:induction false} SortOrdersOneSeason(es: seq<TVModelEntry>, season: int)
    requires AllInSeason(es, season)
    ensures AllInSeason(SortEntries(es), season)
    ensures KeySorted(SortEntries(es))
    ensures forall i, j :: 0 <= i < j < |es| ==> !Lt(SortEntries(es)[j], SortEntries(es)[i])
  {
    var r := SortEntries(es);
    InSeasonByMultiset(r, es, season);
    if es != [] {
      var init := es[..|es| - 1];
      SortOrdersOneSeason(init, season);
      InsertSorted(es[|es| - 1], SortEntries(init), season);
    }
    forall i, j | 0 <= i < j < |es| ensures !Lt(r[j], r[i]) {
      LtWithinSeason(r[j], r[i]);
    }
  }
}
