/**
 * What `TVTableModel._renumber_entries` computes, stated as functions of the
 * sorted entry list: every overridden entry goes to slot `m - 1` of an
 * N-slot table (`Place`), the entries without an override fill the empty
 * slots from left to right in their sorted order (`Fill`), and each entry is
 * then numbered by its slot (`Number`). The loops that compute this in place
 * are `TableModel.TVTableModel.RenumberEntries`.
 */
module Renumbering {
  import opened Options
  import opened ModelEntry
  import opened Sorting

  type Slots = seq<Option<TVModelEntry>>

  // ---------------------------------------------------------------------
  // Overrides and the precondition of renumbering

  function OverrideOf(e: TVModelEntry): multiset<int>
  {
    if HasOverride(e) then multiset{e.manualEpisode.value} else multiset{}
  }

  /** The override values of the entries, with their multiplicities. */
  function Overrides(es: seq<TVModelEntry>): multiset<int>
  {
    if es == [] then multiset{} else Overrides(es[..|es| - 1]) + OverrideOf(es[|es| - 1])
  }

  predicate InRange(es: seq<TVModelEntry>, n: nat)
  {
    forall m :: m in Overrides(es) ==> 1 <= m <= n
  }

  predicate Distinct(es: seq<TVModelEntry>)
  {
    forall m :: m in Overrides(es) ==> Overrides(es)[m] == 1
  }

  /**
   * What renumbering needs and never checks: the override values are
   * distinct and lie in 1..N. A value above N makes the slot assignment
   * index past the table; two equal values leave more empty slots than
   * entries to fill them, and the cursor runs off the end of the list.
   */
  predicate OverridesValid(es: seq<TVModelEntry>)
  {
    InRange(es, |es|) && Distinct(es)
  }

  /** Dropping the last entry keeps both halves of the precondition. */
  lemma DropLast(es: seq<TVModelEntry>, n: nat)
    requires es != []
    ensures Overrides(es) == Overrides(es[..|es| - 1]) + OverrideOf(es[|es| - 1])
    ensures InRange(es, n) ==> InRange(es[..|es| - 1], n)
    ensures InRange(es, n) && HasOverride(es[|es| - 1]) ==> 1 <= es[|es| - 1].manualEpisode.value <= n
    ensures Distinct(es) ==> Distinct(es[..|es| - 1])
  {
    var init, e := es[..|es| - 1], es[|es| - 1];
    assert Overrides(es) == Overrides(init) + OverrideOf(e);
    if InRange(es, n) {
      forall m | m in Overrides(init) ensures 1 <= m <= n {
        assert m in Overrides(es);
      }
      if HasOverride(e) {
        assert e.manualEpisode.value in Overrides(es);
      }
    }
    if Distinct(es) {
      forall m | m in Overrides(init) ensures Overrides(init)[m] == 1 {
        assert Overrides(init)[m] <= Overrides(es)[m];
      }
    }
  }

  lemma {:induction false} OverrideInOverrides(es: seq<TVModelEntry>, e: TVModelEntry)
    requires e in es && HasOverride(e)
    ensures e.manualEpisode.value in Overrides(es)
  {
    var init := es[..|es| - 1];
    if e != es[|es| - 1] {
      assert e in init by {
        var k :| 0 <= k < |es| && es[k] == e;
        assert init[k] == e;
      }
      OverrideInOverrides(init, e);
    }
  }

  /** Entries whose override matches their slot have valid overrides. */
  predicate SlotConsistent(es: seq<TVModelEntry>)
  {
    forall i :: 0 <= i < |es| && HasOverride(es[i]) ==> es[i].manualEpisode.value == i + 1
  }

  lemma {:induction false} SlotConsistentIsValid(es: seq<TVModelEntry>)
    requires SlotConsistent(es)
    ensures OverridesValid(es)
    ensures forall m :: m in Overrides(es) ==> es[m - 1].manualEpisode == Some(m)
  {
    if es != [] {
      var init := es[..|es| - 1];
      assert SlotConsistent(init) by {
        forall i | 0 <= i < |init| && HasOverride(init[i])
          ensures init[i].manualEpisode.value == i + 1
        {
          assert init[i] == es[i];
        }
      }
      SlotConsistentIsValid(init);
      forall m | m in Overrides(es) ensures 1 <= m <= |es| && es[m - 1].manualEpisode == Some(m) {
        if m !in Overrides(init) {
          assert m in OverrideOf(es[|es| - 1]);
        } else {
          assert es[m - 1] == init[m - 1];
        }
      }
      forall m | m in Overrides(es) ensures Overrides(es)[m] == 1 {
        if m in OverrideOf(es[|es| - 1]) {
          assert m == |es|;
        }
      }
    }
  }

  /** Entries straight from the constructor carry no override, so any list of them may be renumbered. */
  lemma {:induction false} NoOverridesValid(es: seq<TVModelEntry>)
    requires forall i :: 0 <= i < |es| ==> !HasOverride(es[i])
    ensures Overrides(es) == multiset{} && OverridesValid(es)
  {
    if es != [] {
      NoOverridesValid(es[..|es| - 1]);
    }
  }

  /** The overrides of a concatenation are those of its parts. */
  lemma {:induction false} OverridesAppend(a: seq<TVModelEntry>, b: seq<TVModelEntry>)
    ensures Overrides(a + b) == Overrides(a) + Overrides(b)
    decreases |b|
  {
    if b == [] {
      assert a + b == a;
    } else {
      var binit := b[..|b| - 1];
      assert (a + b)[..|a + b| - 1] == a + binit;
      OverridesAppend(a, binit);
    }
  }

  /** Replacing one entry swaps its override for the new entry's. */
  lemma OverridesUpdate(es: seq<TVModelEntry>, row: nat, e: TVModelEntry)
    requires row < |es|
    ensures Overrides(es[row := e]) + OverrideOf(es[row]) == Overrides(es) + OverrideOf(e)
  {
    var pre, post := es[..row], es[row + 1..];
    assert Overrides([e]) == OverrideOf(e) && Overrides([es[row]]) == OverrideOf(es[row]) by {
      assert [e][..0] == [] && [es[row]][..0] == [];
    }
    assert es == pre + [es[row]] + post;
    assert es[row := e] == pre + [e] + post;
    OverridesAppend(pre + [es[row]], post);
    OverridesAppend(pre, [es[row]]);
    OverridesAppend(pre + [e], post);
    OverridesAppend(pre, [e]);
  }

  /** A value `row` may be pinned to: positive, no larger than the list, held by no other row. */
  predicate PinAllowed(es: seq<TVModelEntry>, row: nat, v: int)
  {
    1 <= v <= |es| && forall i :: 0 <= i < |es| && i != row ==> es[i].manualEpisode != Some(v)
  }

  /**
   * On a renumbered list, pinning `row` to `v` (v >= 1) keeps the
   * precondition of renumbering exactly when `v` is at most N and no other
   * row is already pinned to `v`.
   */
  lemma PinKeepsValid(es: seq<TVModelEntry>, row: nat, v: int)
    requires SlotConsistent(es) && row < |es| && v >= 1
    ensures OverridesValid(es[row := es[row].(manualEpisode := Some(v))]) <==> PinAllowed(es, row, v)
  {
    var pinned := es[row := es[row].(manualEpisode := Some(v))];
    SlotConsistentIsValid(es);
    OverridesUpdate(es, row, es[row].(manualEpisode := Some(v)));
    OverrideInOverrides(pinned, pinned[row]);
    if PinAllowed(es, row, v) {
      PinFreeValueValid(es, row, v);
    } else if v <= |es| {
      var i :| 0 <= i < |es| && i != row && es[i].manualEpisode == Some(v);
      OverrideInOverrides(es, es[i]);
      assert es[row].manualEpisode != Some(v);
      var before, after := Overrides(es) + multiset{v}, Overrides(pinned) + OverrideOf(es[row]);
      assert after == before && OverrideOf(es[row])[v] == 0;
      assert after[v] == before[v];
      assert Overrides(pinned)[v] >= 2;
    }
  }

  lemma PinFreeValueValid(es: seq<TVModelEntry>, row: nat, v: int)
    requires SlotConsistent(es) && row < |es| && 1 <= v <= |es|
    requires forall i :: 0 <= i < |es| && i != row ==> es[i].manualEpisode != Some(v)
    ensures OverridesValid(es[row := es[row].(manualEpisode := Some(v))])
  {
    var pinned := es[row := es[row].(manualEpisode := Some(v))];
    var after, was, before := Overrides(pinned), OverrideOf(es[row]), Overrides(es);
    SlotConsistentIsValid(es);
    OverridesUpdate(es, row, pinned[row]);
    if v in before {
      assert es[v - 1].manualEpisode == Some(v);
      assert v - 1 == row;
    }
    forall m | m in after ensures 1 <= m <= |es| && after[m] == 1 {
      SwapCount(after, was, before, v, m);
    }
  }

  /**
   * Counting after a swap: `after` is `before` with `was` taken out and `v`
   * put in, `before` holds each value once, and `was` is `{v}` whenever `v`
   * is already in `before`.
   */
  lemma SwapCount(after: multiset<int>, was: multiset<int>, before: multiset<int>, v: int, m: int)
    requires after + was == before + multiset{v}
    requires forall x :: x in before ==> before[x] == 1
    requires v in before ==> was == multiset{v}
    requires m in after
    ensures after[m] == 1 && (m == v || m in before)
  {
    assert (after + was)[m] == (before + multiset{v})[m];
  }

  // ---------------------------------------------------------------------
  // Entries with and without an override

  /** The entries without an override, in order. */
  function Free(es: seq<TVModelEntry>): (r: seq<TVModelEntry>)
    ensures forall i :: 0 <= i < |r| ==> !HasOverride(r[i])
  {
    if es == [] then []
    else if !HasOverride(es[|es| - 1]) then Free(es[..|es| - 1]) + [es[|es| - 1]]
    else Free(es[..|es| - 1])
  }

  /** The entries with an override, in order. */
  function Pinned(es: seq<TVModelEntry>): seq<TVModelEntry>
  {
    if es == [] then []
    else if HasOverride(es[|es| - 1]) then Pinned(es[..|es| - 1]) + [es[|es| - 1]]
    else Pinned(es[..|es| - 1])
  }

  lemma {:induction false} Partition(es: seq<TVModelEntry>)
    ensures multiset(Pinned(es)) + multiset(Free(es)) == multiset(es)
    ensures |Pinned(es)| + |Free(es)| == |es|
  {
    if es != [] {
      var init, e := es[..|es| - 1], es[|es| - 1];
      Partition(init);
      assert multiset(es) == multiset(init) + multiset{e} by {
        assert es == init + [e];
      }
      if HasOverride(e) {
        assert Pinned(es) == Pinned(init) + [e] && Free(es) == Free(init);
      } else {
        assert Pinned(es) == Pinned(init) && Free(es) == Free(init) + [e];
      }
    }
  }

  lemma {:induction false} FreeAppend(a: seq<TVModelEntry>, b: seq<TVModelEntry>)
    ensures Free(a + b) == Free(a) + Free(b)
    decreases |b|
  {
    if b == [] {
      assert a + b == a;
    } else {
      var binit := b[..|b| - 1];
      assert (a + b)[..|a + b| - 1] == a + binit;
      FreeAppend(a, binit);
    }
  }

  // ---------------------------------------------------------------------
  // Slot tables

  /** Number of empty slots. */
  function Holes(slots: Slots): nat
  {
    if slots == [] then 0 else (if slots[0].None? then 1 else 0) + Holes(slots[1..])
  }

  /** The entries in the filled slots, in slot order. */
  function FilledEntries(slots: Slots): seq<TVModelEntry>
  {
    if slots == [] then [] else (if slots[0].Some? then [slots[0].value] else []) + FilledEntries(slots[1..])
  }

  function EmptySlots(n: nat): (slots: Slots)
    ensures |slots| == n && forall i :: 0 <= i < n ==> slots[i].None?
  {
    seq(n, _ => None)
  }

  lemma {:induction false} EmptySlotsCounts(n: nat)
    ensures Holes(EmptySlots(n)) == n && FilledEntries(EmptySlots(n)) == []
  {
    if n > 0 {
      assert EmptySlots(n)[1..] == EmptySlots(n - 1);
      EmptySlotsCounts(n - 1);
    }
  }

  lemma {:induction false} HolesAppend(a: Slots, b: Slots)
    ensures Holes(a + b) == Holes(a) + Holes(b)
  {
    if a == [] {
      assert a + b == b;
    } else {
      assert (a + b)[0] == a[0] && (a + b)[1..] == a[1..] + b;
      HolesAppend(a[1..], b);
    }
  }

  /** Filling an empty slot: one hole fewer, one more entry in the filled slots. */
  lemma {:induction false} FillHole(slots: Slots, k: nat, e: TVModelEntry)
    requires k < |slots| && slots[k].None?
    ensures Holes(slots[k := Some(e)]) == Holes(slots) - 1
    ensures multiset(FilledEntries(slots[k := Some(e)])) == multiset(FilledEntries(slots)) + multiset{e}
  {
    if k > 0 {
      assert slots[k := Some(e)][1..] == slots[1..][k - 1 := Some(e)];
      FillHole(slots[1..], k - 1, e);
    } else {
      assert slots[k := Some(e)][1..] == slots[1..];
    }
  }

  // ---------------------------------------------------------------------
  // Phase 1: overridden entries to slot m - 1

  /**
   * The slot table after the first loop, which visits the entries in order
   * and puts each overridden one, with override `m`, into slot `m - 1`.
   */
  function Place(es: seq<TVModelEntry>, n: nat): (slots: Slots)
    requires InRange(es, n)
    ensures |slots| == n
    ensures forall i :: 0 <= i < n && slots[i].Some? ==>
      slots[i].value in es && slots[i].value.manualEpisode == Some(i + 1)
  {
    if es == [] then EmptySlots(n)
    else
      var init, e := es[..|es| - 1], es[|es| - 1];
      DropLast(es, n);
      var s := Place(init, n);
      if HasOverride(e) then s[e.manualEpisode.value - 1 := Some(e)] else s
  }

  /** One step of `Place` and `Pinned`: what the last entry adds. */
  lemma PlaceStep(es: seq<TVModelEntry>, n: nat)
    requires es != [] && InRange(es, n)
    ensures InRange(es[..|es| - 1], n)
    ensures !HasOverride(es[|es| - 1]) ==>
      Place(es, n) == Place(es[..|es| - 1], n) && Pinned(es) == Pinned(es[..|es| - 1])
    ensures HasOverride(es[|es| - 1]) ==>
      1 <= es[|es| - 1].manualEpisode.value <= n &&
      Place(es, n) == Place(es[..|es| - 1], n)[es[|es| - 1].manualEpisode.value - 1 := Some(es[|es| - 1])] &&
      Pinned(es) == Pinned(es[..|es| - 1]) + [es[|es| - 1]]
  {
    DropLast(es, n);
  }

  /** With distinct overrides, the slot the last entry claims is still empty when it gets there. */
  lemma SlotStillEmpty(es: seq<TVModelEntry>, n: nat)
    requires es != [] && InRange(es, n) && Distinct(es) && HasOverride(es[|es| - 1])
    ensures InRange(es[..|es| - 1], n) && 1 <= es[|es| - 1].manualEpisode.value <= n &&
      Place(es[..|es| - 1], n)[es[|es| - 1].manualEpisode.value - 1].None?
  {
    var init, e := es[..|es| - 1], es[|es| - 1];
    var m := e.manualEpisode.value;
    DropLast(es, n);
    var s := Place(init, n);
    assert Overrides(es)[m] == Overrides(init)[m] + 1;
    if s[m - 1].Some? {
      OverrideInOverrides(init, s[m - 1].value);
      assert false;
    }
  }

  /** With distinct overrides in range, the table holds each overridden entry once, and the rest is empty. */
  lemma {:induction false} PlaceCounts(es: seq<TVModelEntry>, n: nat)
    requires InRange(es, n) && Distinct(es)
    ensures Holes(Place(es, n)) == n - |Pinned(es)|
    ensures multiset(FilledEntries(Place(es, n))) == multiset(Pinned(es))
  {
    if es == [] {
      EmptySlotsCounts(n);
    } else {
      var init, e := es[..|es| - 1], es[|es| - 1];
      DropLast(es, n);
      PlaceCounts(init, n);
      PlaceStep(es, n);
      if HasOverride(e) {
        SlotStillEmpty(es, n);
        FillHole(Place(init, n), e.manualEpisode.value - 1, e);
      }
    }
  }

  /** The entry overridden to `m` is the one in slot `m - 1`. */
  lemma {:induction false} PlaceOverridden(es: seq<TVModelEntry>, n: nat, j: nat)
    requires InRange(es, n) && Distinct(es)
    requires j < |es| && HasOverride(es[j])
    ensures 1 <= es[j].manualEpisode.value <= n
    ensures Place(es, n)[es[j].manualEpisode.value - 1] == Some(es[j])
  {
    var init, e := es[..|es| - 1], es[|es| - 1];
    var m := es[j].manualEpisode.value;
    OverrideInOverrides(es, es[j]);
    if j < |es| - 1 {
      DropLast(es, n);
      assert init[j] == es[j];
      PlaceOverridden(init, n, j);
      if e.manualEpisode == Some(m) {
        OverrideInOverrides(init, es[j]);
        assert false;
      }
    }
  }

  // ---------------------------------------------------------------------
  // Phase 2: the others fill the empty slots from left to right

  /** The slot table after the second loop: each empty slot, left to right, takes the next entry of `free`. */
  function Fill(slots: Slots, free: seq<TVModelEntry>): (r: seq<TVModelEntry>)
    requires Holes(slots) <= |free|
    ensures |r| == |slots|
  {
    if slots == [] then []
    else if slots[0].Some? then [slots[0].value] + Fill(slots[1..], free)
    else [free[0]] + Fill(slots[1..], free[1..])
  }

  /** A filled slot keeps its entry; the k-th empty slot gets the k-th free entry. */
  lemma {:induction false} FillAt(slots: Slots, free: seq<TVModelEntry>, i: nat)
    requires Holes(slots) <= |free| && i < |slots|
    ensures slots[i].Some? ==> Fill(slots, free)[i] == slots[i].value
    ensures slots[i].None? ==>
      Holes(slots[..i]) < |free| && Fill(slots, free)[i] == free[Holes(slots[..i])]
  {
    if i > 0 {
      var rest := if slots[0].Some? then free else free[1..];
      FillAt(slots[1..], rest, i - 1);
      assert slots[..i] == [slots[0]] + slots[1..][..i - 1];
      HolesAppend([slots[0]], slots[1..][..i - 1]);
      assert Holes([slots[0]]) == (if slots[0].None? then 1 else 0) by {
        assert [slots[0]][1..] == [];
      }
    } else {
      assert slots[..0] == [];
    }
  }

  lemma {:induction false} FillIsPermutation(slots: Slots, free: seq<TVModelEntry>)
    requires Holes(slots) == |free|
    ensures multiset(Fill(slots, free)) == multiset(FilledEntries(slots)) + multiset(free)
  {
    if slots != [] {
      var tail := slots[1..];
      if slots[0].Some? {
        FillIsPermutation(tail, free);
        FillPermutationHead(slots, free);
      } else {
        FillIsPermutation(tail, free[1..]);
        FillPermutationHead(slots, free);
      }
    }
  }

  /** One step of `Fill`: the first slot contributes its own entry or the first free one. */
  lemma FillPermutationHead(slots: Slots, free: seq<TVModelEntry>)
    requires slots != [] && Holes(slots) == |free|
    ensures slots[0].Some? ==>
      multiset(Fill(slots, free)) == multiset{slots[0].value} + multiset(Fill(slots[1..], free)) &&
      multiset(FilledEntries(slots)) == multiset{slots[0].value} + multiset(FilledEntries(slots[1..]))
    ensures slots[0].None? ==>
      multiset(Fill(slots, free)) == multiset{free[0]} + multiset(Fill(slots[1..], free[1..])) &&
      multiset(FilledEntries(slots)) == multiset(FilledEntries(slots[1..])) &&
      multiset(free) == multiset{free[0]} + multiset(free[1..])
  {
    if slots[0].None? {
      assert free == [free[0]] + free[1..];
    }
  }

  /** Reading the free entries back out of the filled table gives them in the order they went in. */
  lemma {:induction false} FillKeepsFreeOrder(slots: Slots, free: seq<TVModelEntry>)
    requires Holes(slots) == |free|
    requires forall i :: 0 <= i < |slots| && slots[i].Some? ==> HasOverride(slots[i].value)
    requires forall i :: 0 <= i < |free| ==> !HasOverride(free[i])
    ensures Free(Fill(slots, free)) == free
  {
    if slots != [] {
      var rest := if slots[0].Some? then free else free[1..];
      FillKeepsFreeOrder(slots[1..], rest);
      var head := if slots[0].Some? then slots[0].value else free[0];
      assert Fill(slots, free) == [head] + Fill(slots[1..], rest);
      FreeAppend([head], Fill(slots[1..], rest));
      assert [head][..0] == [];
      if slots[0].Some? {
        assert Free([head]) == [];
      } else {
        assert Free([head]) == [free[0]];
        assert free == [free[0]] + free[1..];
      }
    }
  }

  // ---------------------------------------------------------------------
  // The whole renumbering

  /** The final order: `Place` then `Fill`, before the numbers are written. */
  function Arrange(es: seq<TVModelEntry>): (r: seq<TVModelEntry>)
    requires OverridesValid(es)
    ensures |r| == |es|
  {
    PlaceCounts(es, |es|);
    Partition(es);
    Fill(Place(es, |es|), Free(es))
  }

  /** The last loop: the entry in slot `i` gets derived episode `i + 1`. */
  function Number(s: seq<TVModelEntry>): (r: seq<TVModelEntry>)
    ensures |r| == |s|
  {
    seq(|s|, i requires 0 <= i < |s| => s[i].(derivedEpisode := i + 1))
  }

  function Renumbered(es: seq<TVModelEntry>): (r: seq<TVModelEntry>)
    requires OverridesValid(es)
    ensures |r| == |es|
  {
    Number(Arrange(es))
  }

  /** The derived episodes are 1..N in slot order, and every override names its own slot. */
  predicate Numbered(es: seq<TVModelEntry>)
  {
    SlotConsistent(es) && forall i :: 0 <= i < |es| ==> es[i].derivedEpisode == i + 1
  }

  /** Renumbering only moves entries: the arrangement is a permutation of the input. */
  lemma ArrangeIsPermutation(es: seq<TVModelEntry>)
    requires OverridesValid(es)
    ensures multiset(Arrange(es)) == multiset(es)
  {
    PlaceCounts(es, |es|);
    Partition(es);
    FillIsPermutation(Place(es, |es|), Free(es));
  }

  /** An entry with override `m` ends up at index `m - 1`. */
  lemma OverriddenLandsInSlot(es: seq<TVModelEntry>, j: nat)
    requires OverridesValid(es)
    requires j < |es| && HasOverride(es[j])
    ensures 1 <= es[j].manualEpisode.value <= |es|
    ensures Arrange(es)[es[j].manualEpisode.value - 1] == es[j]
  {
    PlaceCounts(es, |es|);
    Partition(es);
    PlaceOverridden(es, |es|, j);
    FillAt(Place(es, |es|), Free(es), es[j].manualEpisode.value - 1);
  }

  /**
   * The entries without an override keep their relative order: they are
   * exactly the entries of the empty slots, read left to right.
   */
  lemma FreeKeepOrder(es: seq<TVModelEntry>)
    requires OverridesValid(es)
    ensures Free(Arrange(es)) == Free(es)
  {
    PlaceCounts(es, |es|);
    Partition(es);
    FillKeepsFreeOrder(Place(es, |es|), Free(es));
  }

  /** Every slot holds either the entry overridden to it or an entry without an override. */
  lemma ArrangeSlotConsistent(es: seq<TVModelEntry>)
    requires OverridesValid(es)
    ensures SlotConsistent(Arrange(es))
  {
    PlaceCounts(es, |es|);
    Partition(es);
    var slots := Place(es, |es|);
    forall i | 0 <= i < |es| ensures
      HasOverride(Arrange(es)[i]) ==> Arrange(es)[i].manualEpisode.value == i + 1
    {
      FillAt(slots, Free(es), i);
    }
  }

  /**
   * After renumbering, the entry at index `i` is the arranged entry with
   * derived episode `i + 1`: the derived episodes are exactly 1..N, and the
   * result again satisfies the precondition of renumbering.
   */
  lemma RenumberedIsNumbered(es: seq<TVModelEntry>)
    requires OverridesValid(es)
    ensures forall i :: 0 <= i < |es| ==>
      Renumbered(es)[i] == Arrange(es)[i].(derivedEpisode := i + 1)
    ensures Numbered(Renumbered(es))
    ensures OverridesValid(Renumbered(es))
  {
    ArrangeSlotConsistent(es);
    SlotConsistentIsValid(Renumbered(es));
  }

  lemma {:induction false} FreeOfUnpinned(es: seq<TVModelEntry>)
    requires forall i :: 0 <= i < |es| ==> !HasOverride(es[i])
    ensures Free(es) == es
  {
    if es != [] {
      FreeOfUnpinned(es[..|es| - 1]);
    }
  }

  /** With no entry overridden, arranging changes nothing. */
  lemma ArrangeOfUnpinned(es: seq<TVModelEntry>)
    requires forall i :: 0 <= i < |es| ==> !HasOverride(es[i])
    ensures OverridesValid(es) && Arrange(es) == es
  {
    NoOverridesValid(es);
    ArrangeIsPermutation(es);
    var a := Arrange(es);
    forall i | 0 <= i < |a| ensures !HasOverride(a[i]) {
      assert a[i] in multiset(es);
    }
    FreeKeepOrder(es);
    FreeOfUnpinned(es);
    FreeOfUnpinned(a);
  }

  /**
   * Without overrides renumbering keeps the sorted order; so a fresh batch
   * of one season's files is numbered 1..N in ascending parsed episode.
   */
  lemma FreshSeasonInEpisodeOrder(es: seq<TVModelEntry>, season: int)
    requires forall i :: 0 <= i < |es| ==> !HasOverride(es[i]) && es[i].season == season
    ensures OverridesValid(SortEntries(es))
    ensures var r := Renumbered(SortEntries(es));
      forall i :: 0 <= i < |r| ==> r[i].derivedEpisode == i + 1 && !HasOverride(r[i])
    ensures var r := Renumbered(SortEntries(es));
      forall i, j :: 0 <= i < j < |r| ==> r[i].episode <= r[j].episode
  {
    var s := SortEntries(es);
    SortOrdersOneSeason(es, season);
    forall i | 0 <= i < |s| ensures !HasOverride(s[i]) {
      assert s[i] in multiset(es);
    }
    ArrangeOfUnpinned(s);
    RenumberedIsNumbered(s);
    var r := Renumbered(s);
    forall i, j | 0 <= i < j < |r| ensures r[i].episode <= r[j].episode {
      assert r[i].episode == s[i].episode && r[j].episode == s[j].episode;
      assert !KeyLess(s[j], s[i]);
    }
  }

  // ---------------------------------------------------------------------
  // Sorting does not disturb the precondition

  lemma {:induction false} InsertKeepsOverrides(x: TVModelEntry, s: seq<TVModelEntry>)
    ensures Overrides(Insert(x, s)) == Overrides(s) + OverrideOf(x)
  {
    if s != [] && Lt(x, s[|s| - 1]) {
      var init := s[..|s| - 1];
      InsertKeepsOverrides(x, init);
      OverridesAppend(Insert(x, init), [s[|s| - 1]]);
      assert [s[|s| - 1]][..0] == [];
    } else if s != [] {
      assert (s + [x])[..|s|] == s;
    }
  }

  /** Sorting permutes the entries and so leaves the override values as they were. */
  lemma {:induction false} SortKeepsOverrides(es: seq<TVModelEntry>)
    ensures Overrides(SortEntries(es)) == Overrides(es)
    ensures OverridesValid(es) ==> OverridesValid(SortEntries(es))
  {
    if es != [] {
      var init := es[..|es| - 1];
      SortKeepsOverrides(init);
      InsertKeepsOverrides(es[|es| - 1], SortEntries(init));
    }
  }
}
