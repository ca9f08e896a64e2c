/**
 * Active-id lists (`using_t[j]` for the tables of one document, `using_k`
 * for the dishes): ascending lists of distinct ids that always start with
 * the reserved sentinel id 0, and the gap scan that hands out the smallest
 * free id.
 */
module Registry {
  import opened Vectors

  /** Sorted strictly ascending and starting with the sentinel 0. */
  predicate IsRegistry(ids: seq<nat>)
  {
    |ids| > 0 && ids[0] == 0 &&
    forall p, q :: 0 <= p < q < |ids| ==> ids[p] < ids[q]
  }

  /** In a strictly ascending list starting at 0, every element is at least its position. */
  lemma {:induction false} AtLeastPosition(ids: seq<nat>, p: nat)
    requires IsRegistry(ids) && p < |ids|
    ensures ids[p] >= p
  {
    if p > 0 {
      AtLeastPosition(ids, p - 1);
    }
  }

  /**
   * The first position, from `p` on, whose id differs from the position, or
   * `|ids|` when there is none.
   */
  function GapFrom(ids: seq<nat>, p: nat): (g: nat)
    requires p <= |ids|
    ensures p <= g <= |ids|
    ensures forall q :: p <= q < g ==> ids[q] == q
    ensures g < |ids| ==> ids[g] != g
    decreases |ids| - p
  {
    if p == |ids| || ids[p] != p then p else GapFrom(ids, p + 1)
  }

  /** The id the gap scan of `add_new_dish` and `add_new_table` hands out. */
  function Gap(ids: seq<nat>): nat
  {
    GapFrom(ids, 0)
  }

  /**
   * On a registry the gap scan finds the smallest id that is not active: it
   * is not the sentinel, every smaller id is active, and it sits at its own
   * position once inserted there.
   */
  lemma GapIsSmallestFree(ids: seq<nat>)
    requires IsRegistry(ids)
    ensures var g := Gap(ids);
            0 < g <= |ids| && g !in ids &&
            (forall x :: 0 <= x < g ==> x in ids) &&
            (forall p :: 0 <= p < g ==> ids[p] == p) &&
            (g < |ids| ==> ids[g] > g)
  {
    var g := Gap(ids);
    forall x | 0 <= x < g
      ensures x in ids
    {
      assert ids[x] == x;
    }
    if g < |ids| {
      AtLeastPosition(ids, g);
      forall p | 0 <= p < |ids|
        ensures ids[p] != g
      {
        if p > g {
          assert ids[p] > ids[g];
        }
      }
    } else {
      forall p | 0 <= p < |ids|
        ensures ids[p] != g
      {
        assert ids[p] == p;
      }
    }
  }

  /** The gap-scan loop of `add_new_dish` and `add_new_table`. */
  method FirstGap(ids: seq<nat>) returns (g: nat)
    ensures g == Gap(ids)
  {
    g := |ids|;
    for i := 0 to |ids|
      invariant forall p :: 0 <= p < i ==> ids[p] == p
      invariant GapFrom(ids, i) == Gap(ids)
    {
      if i != ids[i] {
        g := i;
        break;
      }
    }
  }

  /** The ids of a registry below `n` leave room for at least as many slots. */
  lemma RegistryLength(ids: seq<nat>, n: nat)
    requires IsRegistry(ids) && forall x :: x in ids ==> x < n
    ensures |ids| <= n
  {
    AtLeastPosition(ids, |ids| - 1);
    assert ids[|ids| - 1] in ids;
  }

  /** `ids.insert(ids.begin() + g, g)`: the id `g` placed at position `g`. */
  function Inserted(ids: seq<nat>, g: nat): seq<nat>
    requires g <= |ids|
  {
    ids[..g] + [g] + ids[g..]
  }

  /** Inserting the gap found by the scan keeps the list a registry and adds exactly `g`. */
  lemma InsertGap(ids: seq<nat>, g: nat)
    requires IsRegistry(ids) && 0 < g <= |ids|
    requires forall p :: 0 <= p < g ==> ids[p] == p
    requires g < |ids| ==> ids[g] > g
    ensures IsRegistry(Inserted(ids, g))
    ensures |Inserted(ids, g)| == |ids| + 1
    ensures forall x :: x in Inserted(ids, g) <==> x in ids || x == g
  {
    var r := Inserted(ids, g);
    assert r[0] == 0;
    forall p, q | 0 <= p < q < |r|
      ensures r[p] < r[q]
    {
      if q < g {
      } else if q == g {
        assert r[p] == p;
      } else if p < g {
        assert r[p] == p && r[q] == ids[q - 1];
        AtLeastPosition(ids, q - 1);
      } else if p == g {
        assert r[q] == ids[q - 1];
        if q - 1 > g { assert ids[q - 1] > ids[g]; }
      } else {
        assert r[p] == ids[p - 1] && r[q] == ids[q - 1];
      }
    }
    forall x
      ensures x in r <==> x in ids || x == g
    {
      assert ids == ids[..g] + ids[g..];
    }
  }

  /** Dropping one position of a strictly ascending list keeps it so and drops that id. */
  lemma AscendingDrop(ids: seq<nat>, p: nat)
    requires Ascending(ids) && p < |ids|
    ensures Ascending(ids[..p] + ids[p + 1..])
    ensures ids[p] !in ids[..p] + ids[p + 1..]
  {
    var r := ids[..p] + ids[p + 1..];
    forall a | 0 <= a < |r|
      ensures r[a] == ids[if a < p then a else a + 1]
    {
    }
    forall a, b | 0 <= a < b < |r|
      ensures r[a] < r[b]
    {
      var a', b' := if a < p then a else a + 1, if b < p then b else b + 1;
      assert r[a] == ids[a'] && r[b] == ids[b'];
    }
    forall a | 0 <= a < |r|
      ensures r[a] != ids[p]
    {
      var a' := if a < p then a else a + 1;
      assert r[a] == ids[a'] && a' != p;
    }
  }

  /** Erasing a non-sentinel id keeps the list a registry and drops exactly that id. */
  lemma RemoveId(ids: seq<nat>, e: nat)
    requires IsRegistry(ids) && e != 0
    ensures IsRegistry(Without(ids, e))
    ensures forall x :: x in Without(ids, e) <==> x in ids && x != e
    ensures e in ids ==> |Without(ids, e)| == |ids| - 1
  {
    var p := FirstIndex(ids, e);
    WithoutCounts(ids, e);
    if p < |ids| {
      var r := Without(ids, e);
      assert r == ids[..p] + ids[p + 1..];
      assert p > 0 && r[0] == ids[0];
      AscendingDrop(ids, p);
      forall x
        ensures x in r <==> x in ids && x != e
      {
        if x != e {
          WithoutMembers(ids, e, x);
        }
      }
    }
  }

  /** Strictly ascending. */
  predicate Ascending(ids: seq<nat>)
  {
    forall p, q :: 0 <= p < q < |ids| ==> ids[p] < ids[q]
  }

  /** The ids of a list with one more entry at its end. */
  lemma IdsOfAppend(init: seq<nat>, last: nat)
    ensures (set x: nat | x in init + [last]) == (set x: nat | x in init) + {last}
  {
  }

  /** A strictly ascending list holds as many distinct ids as it has entries. */
  lemma {:induction false} AscendingCard(ids: seq<nat>)
    requires Ascending(ids)
    ensures |set x: nat | x in ids| == |ids|
  {
    if |ids| > 0 {
      var last := ids[|ids| - 1];
      var init := ids[..|ids| - 1];
      assert ids == init + [last];
      AscendingDrop(ids, |ids| - 1);
      AscendingCard(init);
      IdsOfAppend(init, last);
    }
  }
}
