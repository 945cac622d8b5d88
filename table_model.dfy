/**
 * `TVTableModel`: the table the user edits. It owns the entry list and lets
 * the user pin an entry to an episode number. After every change it sorts
 * the entries and then renumbers them; renumbering moves pinned entries to
 * their slots, so the list it keeps is in slot order, which need not be
 * sorted by `<`.
 */
module TableModel {
  import opened Options
  import opened ModelEntry
  import opened Sorting
  import opened Renumbering

  // ---------------------------------------------------------------------
  // Facts about the cursor of the second renumbering loop

  /** Prefixes keep both halves of the renumbering precondition. */
  lemma {:induction false} PrefixKeepsValidity(es: seq<TVModelEntry>, k: nat, n: nat)
    requires k <= |es| && InRange(es, n)
    ensures InRange(es[..k], n)
    decreases |es| - k
  {
    if k < |es| {
      DropLast(es, n);
      assert es[..|es| - 1][..k] == es[..k];
      PrefixKeepsValidity(es[..|es| - 1], k, n);
    } else {
      assert es[..k] == es;
    }
  }

  /** The free entries of a list are those before index `k` followed by those from `k` on. */
  lemma {:induction false} FreeSplit(es: seq<TVModelEntry>, k: nat)
    requires k <= |es|
    ensures Free(es) == Free(es[..k]) + Free(es[k..])
  {
    if k == |es| {
      assert es[..k] == es && es[k..] == [];
    } else {
      var init, rest := es[..|es| - 1], es[k..];
      FreeSplit(init, k);
      assert init[..k] == es[..k];
      assert rest[..|rest| - 1] == init[k..] && rest[|rest| - 1] == es[|es| - 1];
    }
  }

  /** Extending a prefix by one entry adds that entry to its free entries exactly when it has no override. */
  lemma FreeStep(es: seq<TVModelEntry>, k: nat)
    requires k < |es|
    ensures Free(es[..k + 1]) == Free(es[..k]) + (if !HasOverride(es[k]) then [es[k]] else [])
  {
    assert es[..k + 1][..k] == es[..k];
  }

  /** While free entries remain to be handed out, the cursor is inside the list. */
  lemma CursorInBounds(es: seq<TVModelEntry>, idx: nat, h: nat)
    requires idx <= |es| && h < |Free(es)| && Free(es[..idx]) == Free(es)[..h]
    ensures idx < |es|
  {
    FreeSplit(es, idx);
  }

  /** A sequence that is its own first `h` elements, then `x`, then more, has `x` at `h`. */
  lemma ElementAfterPrefix(f: seq<TVModelEntry>, x: TVModelEntry, rest: seq<TVModelEntry>, h: nat)
    requires h <= |f| && f == f[..h] + [x] + rest
    ensures h < |f| && f[h] == x && f[..h + 1] == f[..h] + [x]
  {
  }

  /** The first entry without an override at or after the cursor is the next free entry. */
  lemma NextFree(es: seq<TVModelEntry>, idx: nat, h: nat)
    requires idx < |es| && !HasOverride(es[idx])
    requires h <= |Free(es)| && Free(es[..idx]) == Free(es)[..h]
    ensures h < |Free(es)| && Free(es)[h] == es[idx]
    ensures Free(es[..idx + 1]) == Free(es)[..h + 1]
  {
    FreeStep(es, idx);
    FreeSplit(es, idx + 1);
    ElementAfterPrefix(Free(es), es[idx], Free(es[idx + 1..]), h);
  }

  lemma HolesStep(slots: Slots, i: nat)
    requires i < |slots|
    ensures Holes(slots[..i + 1]) == Holes(slots[..i]) + (if slots[i].None? then 1 else 0)
  {
    assert slots[..i + 1] == slots[..i] + [slots[i]];
    HolesAppend(slots[..i], [slots[i]]);
    assert [slots[i]][1..] == [];
  }

  /** The slot array after the second loop has handled slots 0..i-1. */
  ghost function Progress(arranged: seq<TVModelEntry>, placed: Slots, i: nat): (slots: Slots)
    requires |arranged| == |placed| && i <= |placed|
    ensures |slots| == |placed|
  {
    seq(|placed|, j requires 0 <= j < |placed| => if j < i then Some(arranged[j]) else placed[j])
  }

  lemma ProgressStep(arranged: seq<TVModelEntry>, placed: Slots, i: nat)
    requires |arranged| == |placed| && i < |placed|
    ensures Progress(arranged, placed, i + 1) == Progress(arranged, placed, i)[i := Some(arranged[i])]
  {
  }

  /** The first loop of `_renumber_entries`: `[None] * N`, then every overridden entry into slot m - 1. */
  method PlaceOverrides(es: seq<TVModelEntry>) returns (slots: array<Option<TVModelEntry>>)
    requires InRange(es, |es|)
    ensures fresh(slots) && slots[..] == Place(es, |es|)
  {
    var n := |es|;
    slots := new Option<TVModelEntry>[n](_ => None);
    for k := 0 to n
      invariant InRange(es[..k], n)
      invariant slots[..] == Place(es[..k], n)
    {
      PrefixKeepsValidity(es, k + 1, n);
      DropLast(es[..k + 1], n);
      assert es[..k + 1][..k] == es[..k];
      if HasOverride(es[k]) {
        var ep := es[k].manualEpisode.value;
        slots[ep - 1] := Some(es[k]);
      }
    }
    assert es[..n] == es;
  }

  /** The inner `while` of the second loop: step the cursor over overridden entries. */
  method AdvanceCursor(es: seq<TVModelEntry>, idx: nat, ghost h: nat) returns (k: nat)
    requires idx <= |es| && h < |Free(es)| && Free(es[..idx]) == Free(es)[..h]
    ensures idx <= k < |es| && !HasOverride(es[k])
    ensures Free(es[..k]) == Free(es)[..h]
  {
    k := idx;
    CursorInBounds(es, k, h);
    while HasOverride(es[k])
      invariant idx <= k < |es|
      invariant Free(es[..k]) == Free(es)[..h]
      decreases |es| - k
    {
      FreeStep(es, k);
      k := k + 1;
      CursorInBounds(es, k, h);
    }
  }

  /**
   * The second loop: a cursor walks the sorted entries, skips the
   * overridden ones, and hands the others to the empty slots from left to
   * right.
   */
  method FillEmptySlots(es: seq<TVModelEntry>, slots: array<Option<TVModelEntry>>)
    requires OverridesValid(es) && slots[..] == Place(es, |es|)
    modifies slots
    ensures forall t :: 0 <= t < |es| ==> slots[t] == Some(Arrange(es)[t])
  {
    var n := |es|;
    ghost var placed := Place(es, n);
    ghost var free := Free(es);
    ghost var arranged := Arrange(es);
    PlaceCounts(es, n);
    Partition(es);
    assert arranged == Fill(placed, free);
    assert slots[..] == Progress(arranged, placed, 0);
    var idx := 0;
    ghost var h := 0;
    for i := 0 to n
      invariant 0 <= idx <= n
      invariant h == Holes(placed[..i]) && h <= |free|
      invariant Free(es[..idx]) == free[..h]
      invariant slots[..] == Progress(arranged, placed, i)
    {
      FillAt(placed, free, i);
      HolesStep(placed, i);
      ProgressStep(arranged, placed, i);
      if slots[i].None? {
        idx := AdvanceCursor(es, idx, h);
        NextFree(es, idx, h);
        slots[i] := Some(es[idx]);
        idx := idx + 1;
        h := h + 1;
      }
    }
    assert forall t :: 0 <= t < n ==> slots[t] == Progress(arranged, placed, n)[t];
  }

  // ---------------------------------------------------------------------

  class TVTableModel {
    var entries: seq<TVModelEntry>

    /** Between operations the list is renumbered: derived episodes 1..N, each override on its own slot. */
    ghost predicate Valid()
      reads this
    {
      Numbered(entries)
    }

    constructor ()
      ensures Valid() && entries == []
    {
      entries := [];
    }

    /** `consume_data`: replace the entries by the given ones, sorted and renumbered. */
    method ConsumeData(es: seq<TVModelEntry>)
      requires OverridesValid(es)
      modifies this
      ensures OverridesValid(SortEntries(es)) && entries == Renumbered(SortEntries(es))
      ensures Valid() && |entries| == |es|
    {
      SortKeepsOverrides(es);
      entries := SortEntries(es);
      RenumberEntries();
    }

    /**
     * `_renumber_entries`: place the overridden entries, hand the others to
     * the empty slots, then number every entry by its slot.
     */
    method RenumberEntries()
      requires OverridesValid(entries)
      modifies this
      ensures entries == Renumbered(old(entries))
      ensures Valid()
    {
      var es := entries;
      var n := |es|;
      var slots := PlaceOverrides(es);
      FillEmptySlots(es, slots);
      ghost var arranged := Arrange(es);
      var numbered: seq<TVModelEntry> := [];
      var number := 1;
      for j := 0 to n
        invariant number == j + 1 && |numbered| == j
        invariant forall t :: 0 <= t < j ==> numbered[t] == arranged[t].(derivedEpisode := t + 1)
      {
        numbered := numbered + [slots[j].value.(derivedEpisode := number)];
        number := number + 1;
      }
      entries := numbered;
      RenumberedIsNumbered(es);
    }

    /**
     * `setData` on the "Fixed" column. `value` is what `int` made of the
     * edited text: None when it raised `ValueError`. A value below 1 is
     * refused; any other pins the row and re-sorts and renumbers the table.
     * Nothing checks that the pinned list can be renumbered: that is the
     * precondition here (see `GuardAdmitsOutOfRange` and `GuardAdmitsDuplicate`).
     */
    method SetData(row: nat, value: Option<int>) returns (ok: bool)
      requires SetDataAccepts(value) ==>
        row < |entries| && OverridesValid(entries[row := entries[row].(manualEpisode := value)])
      modifies this
      ensures ok <==> SetDataAccepts(value)
      ensures !ok ==> entries == old(entries)
      ensures ok ==>
        var pinned := SortEntries(old(entries)[row := old(entries)[row].(manualEpisode := value)]);
        OverridesValid(pinned) && entries == Renumbered(pinned)
      ensures ok ==> Valid() && |entries| == |old(entries)|
    {
      if value.None? {
        return false;
      }
      var val := value.value;
      if val < 1 {
        return false;
      }
      var entry := entries[row];
      entries := entries[row := entry.(manualEpisode := Some(val))];
      SortKeepsOverrides(entries);
      entries := SortEntries(entries);
      RenumberEntries();
      return true;
    }

    /**
     * `setData` with the guard it needs: besides values below 1 it refuses a
     * value above the number of entries and a value another row already
     * holds, so that on a renumbered table it always succeeds or leaves the
     * table as it was.
     */
    method SetDataChecked(row: nat, value: Option<int>) returns (ok: bool)
      requires Valid() && row < |entries|
      modifies this
      ensures ok <==> value.Some? && PinAllowed(old(entries), row, value.value)
      ensures !ok ==> entries == old(entries)
      ensures ok ==>
        var pinned := SortEntries(old(entries)[row := old(entries)[row].(manualEpisode := value)]);
        OverridesValid(pinned) && entries == Renumbered(pinned)
      ensures Valid() && |entries| == |old(entries)|
    {
      if value.None? || value.value < 1 {
        return false;
      }
      var v := value.value;
      if !PinAllowed(entries, row, v) {
        return false;
      }
      PinKeepsValid(entries, row, v);
      ok := SetData(row, value);
    }
  }

  /** The guard of `setData`: `int(value)` succeeded and is at least 1. */
  predicate SetDataAccepts(value: Option<int>)
  {
    value.Some? && value.value >= 1
  }

  /**
   * The guard of `setData` lets through a value above the number of
   * entries: with one entry, the value 2 names slot index 1 of a one-slot
   * table.
   */
  lemma GuardAdmitsOutOfRange()
    ensures var a := TVModelEntry("S01E01.mkv", "unknown", 1, 1, None, 1);
            var pinned := [a.(manualEpisode := Some(2))];
            SetDataAccepts(Some(2)) && !InRange(pinned, |pinned|)
  {
    var a := TVModelEntry("S01E01.mkv", "unknown", 1, 1, None, 1);
    var pinned := [a.(manualEpisode := Some(2))];
    assert Overrides(pinned) == multiset{2} by {
      assert pinned[..0] == [];
    }
  }

  /**
   * The guard of `setData` lets through a value another row holds: with two
   * entries, the first pinned to 1, pinning the second to 1 as well leaves
   * both pinned. The first loop puts the second into slot 0, so one slot
   * stays empty with no free entry to fill it, and the cursor runs off the
   * end of the list.
   */
  lemma GuardAdmitsDuplicate()
    ensures var a := TVModelEntry("S01E01.mkv", "unknown", 1, 1, Some(1), 1);
            var b := TVModelEntry("S01E02.mkv", "unknown", 1, 2, None, 2);
            var pinned := [a, b.(manualEpisode := Some(1))];
            SetDataAccepts(Some(1)) && InRange(pinned, 2)
            && Place(pinned, 2) == [Some(pinned[1]), None]
            && Holes(Place(pinned, 2)) == 1 && |Free(pinned)| == 0
  {
    var p := TVModelEntry("S01E01.mkv", "unknown", 1, 1, Some(1), 1);
    var q := TVModelEntry("S01E02.mkv", "unknown", 1, 2, None, 2).(manualEpisode := Some(1));
    var two := [p, q];
    assert two[..1] == [p] && [p][..0] == [];
    assert Overrides([p]) == multiset{1};
    assert Overrides(two) == multiset{1, 1};
    assert Free(two) == [] by {
      assert Free([p]) == Free([]);
    }
    var slots: Slots := [Some(q), None];
    assert Place(two, 2) == slots by {
      assert Place([p], 2) == [Some(p), None];
    }
    assert Holes(slots) == 1 by {
      var tail := slots[1..];
      assert tail == [None] && tail[1..] == [];
      assert Holes(tail) == 1;
    }
  }
}
