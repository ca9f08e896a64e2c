/**
 * Corpus-wide dish bookkeeping: the active dishes (`using_k`), the tables
 * per dish (`m_k`), the total of active tables (`m`) and each table's dish
 * (`k_jt`). The lemmas are the moves the sampling steps make on it:
 * closing a table, opening a dish, opening a table, and a table leaving and
 * joining a dish.
 */
module Dishes {
  import opened Vectors
  import opened Registry
  import opened Tally

  /**
   * Every active table other than the sentinel serves an active dish other
   * than the sentinel, and `m_k[k]` is the number of active tables, over all
   * documents, serving active dish `k`.
   */
  predicate DishTables(ut: seq<seq<nat>>, kjt: seq<seq<nat>>, uk: seq<nat>, mk: seq<nat>)
  {
    |ut| == |kjt| &&
    (forall j, t :: 0 <= j < |ut| && t in ut[j] && t != 0 ==>
       DishOf(kjt[j], t) in uk && DishOf(kjt[j], t) != 0) &&
    (forall k :: k in uk && k != 0 ==> k < |mk| && mk[k] == Serving(ut, kjt, k))
  }

  /**
   * `m` is the sum of `m_k[k]` over the active dishes other than the
   * sentinel, and every such dish has a table, except possibly `exempt`
   * (a dish just opened and not yet given its table).
   */
  predicate TableCount(uk: seq<nat>, mk: seq<nat>, m: nat, exempt: nat)
  {
    m == ActiveSum(uk, mk) &&
    (forall k :: k in uk && k != 0 && k != exempt ==> k < |mk| && mk[k] > 0)
  }

  // ---------------------------------------------------------------------
  // Sums and counts over registries

  /** Changing `m_k` at one active dish changes the active sum by the same amount. */
  lemma ActiveSumChange(uk: seq<nat>, mk: seq<nat>, k: nat, x: nat)
    requires IsRegistry(uk) && k in uk && k != 0 && k < |mk|
    ensures ActiveSum(uk, mk[k := x]) == ActiveSum(uk, mk) - mk[k] + x
    ensures ActiveSum(uk, mk) >= mk[k]
  {
    var p := FirstIndex(uk, k);
    var rest := uk[..p] + uk[p + 1..];
    ActiveSumSplit(uk, mk, p);
    ActiveSumSplit(uk, mk[k := x], p);
    forall q | 0 <= q < |rest|
      ensures Weight(mk, rest[q]) == Weight(mk[k := x], rest[q])
    {
      var q' := if q < p then q else q + 1;
      assert rest[q] == uk[q'];
      if q' > p { assert uk[q'] > uk[p]; }
    }
    ActiveSumFrame(rest, mk, mk[k := x]);
  }

  /** Erasing an id from the list removes its weight from the sum. */
  lemma ActiveSumWithout(uk: seq<nat>, mk: seq<nat>, k: nat)
    requires k in uk
    ensures ActiveSum(Without(uk, k), mk) == ActiveSum(uk, mk) - Weight(mk, k)
  {
    ActiveSumSplit(uk, mk, FirstIndex(uk, k));
  }

  /** Inserting an id adds its weight to the sum. */
  lemma ActiveSumInserted(uk: seq<nat>, mk: seq<nat>, g: nat)
    requires g <= |uk|
    ensures ActiveSum(Inserted(uk, g), mk) == ActiveSum(uk, mk) + Weight(mk, g)
  {
    var r := Inserted(uk, g);
    assert r[..g] + r[g + 1..] == uk by {
      assert r[..g] == uk[..g] && r[g + 1..] == uk[g..];
    }
    ActiveSumSplit(r, mk, g);
  }

  /** Erasing a table from a document's list removes it from the count of its dish. */
  lemma CountServingWithout(ts: seq<nat>, kj: seq<nat>, t: nat, k: nat)
    requires t in ts
    ensures CountServing(Without(ts, t), kj, k)
         == CountServing(ts, kj, k) - (if t != 0 && DishOf(kj, t) == k then 1 else 0)
  {
    var p := FirstIndex(ts, t);
    assert ts == ts[..p] + [t] + ts[p + 1..];
    CountServingAppend(ts[..p] + [t], ts[p + 1..], kj, k);
    CountServingAppend(ts[..p], [t], kj, k);
    CountServingAppend(ts[..p], ts[p + 1..], kj, k);
    CountServingOne(t, kj, k);
  }

  /** Inserting a table into a document's list adds it to the count of its dish. */
  lemma CountServingInserted(ts: seq<nat>, kj: seq<nat>, g: nat, k: nat)
    requires g <= |ts|
    ensures CountServing(Inserted(ts, g), kj, k)
         == CountServing(ts, kj, k) + (if g != 0 && DishOf(kj, g) == k then 1 else 0)
  {
    assert ts == ts[..g] + ts[g..];
    CountServingAppend(ts[..g] + [g], ts[g..], kj, k);
    CountServingAppend(ts[..g], [g], kj, k);
    CountServingAppend(ts[..g], ts[g..], kj, k);
    CountServingOne(g, kj, k);
  }

  /** A list none of whose tables serves `k` counts no table for `k`. */
  lemma {:induction false} CountServingNone(ts: seq<nat>, kj: seq<nat>, k: nat)
    requires forall t :: t in ts && t != 0 ==> DishOf(kj, t) != k
    ensures CountServing(ts, kj, k) == 0
    decreases |ts|
  {
    if |ts| > 0 {
      var n := |ts| - 1;
      assert ts[n] in ts;
      assert forall t :: t in ts[..n] ==> t in ts;
      CountServingNone(ts[..n], kj, k);
    }
  }

  /** A dish no active table serves has no table in the count. */
  lemma {:induction false} ServingNone(ut: seq<seq<nat>>, kjt: seq<seq<nat>>, k: nat)
    requires |ut| == |kjt|
    requires forall j, t :: 0 <= j < |ut| && t in ut[j] && t != 0 ==> DishOf(kjt[j], t) != k
    ensures Serving(ut, kjt, k) == 0
    decreases |ut|
  {
    if |ut| > 0 {
      var n := |ut| - 1;
      ServingNone(ut[..n], kjt[..n], k);
      CountServingNone(ut[n], kjt[n], k);
    }
  }

  // ---------------------------------------------------------------------
  // The moves

  /** Erasing table `t` from document `j` takes it off the total of its dish only. */
  lemma ServingWithout(ut: seq<seq<nat>>, kjt: seq<seq<nat>>, j: nat, t: nat, k: nat)
    requires |ut| == |kjt| && j < |ut| && t in ut[j]
    ensures Serving(ut[j := Without(ut[j], t)], kjt, k) + (if t != 0 && DishOf(kjt[j], t) == k then 1 else 0)
         == Serving(ut, kjt, k)
  {
    assert kjt[j := kjt[j]] == kjt;
    ServingUpdate(ut, kjt, j, Without(ut[j], t), kjt[j], k);
    CountServingWithout(ut[j], kjt[j], t, k);
  }

  /** A dish whose count is 0 is served by no active table. */
  lemma UnservedDish(ut: seq<seq<nat>>, kjt: seq<seq<nat>>, k: nat)
    requires |ut| == |kjt| && Serving(ut, kjt, k) == 0
    ensures forall j, t :: 0 <= j < |ut| && t in ut[j] && t != 0 ==> DishOf(kjt[j], t) != k
  {
    forall j, t | 0 <= j < |ut| && t in ut[j] && t != 0
      ensures DishOf(kjt[j], t) != k
    {
      if DishOf(kjt[j], t) == k {
        var p :| 0 <= p < |ut[j]| && ut[j][p] == t;
        assert ut[j := ut[j]] == ut && kjt[j := kjt[j]] == kjt;
        CountServingPositive(ut[j], kjt[j], p, k);
        ServingUpdate(ut, kjt, j, ut[j], kjt[j], k);
      }
    }
  }

  /**
   * `remove_table(j, t)`: table `t` leaves `using_t[j]`, `m_k[k]` and `m`
   * drop by one (both are positive, so neither wraps) for its dish `k`,
   * and `k` leaves `using_k` exactly when `m_k[k]` reaches 0. Both dish
   * invariants are kept.
   */
  lemma CloseTable(ut: seq<seq<nat>>, kjt: seq<seq<nat>>, uk: seq<nat>, mk: seq<nat>, m: nat,
                   j: nat, t: nat)
    requires DishTables(ut, kjt, uk, mk) && TableCount(uk, mk, m, 0)
    requires IsRegistry(uk) && j < |ut| && IsRegistry(ut[j]) && t in ut[j] && t != 0
    ensures var k := DishOf(kjt[j], t);
            k in uk && k != 0 && k < |mk| && mk[k] >= 1 && m >= 1
    ensures var k := DishOf(kjt[j], t);
            var ut' := ut[j := Without(ut[j], t)];
            var mk' := mk[k := mk[k] - 1];
            var uk' := if mk[k] == 1 then Without(uk, k) else uk;
            DishTables(ut', kjt, uk', mk') && TableCount(uk', mk', m - 1, 0)
  {
    var k := DishOf(kjt[j], t);
    ActiveSumChange(uk, mk, k, mk[k] - 1);
    var ut' := ut[j := Without(ut[j], t)];
    var mk' := mk[k := mk[k] - 1];
    var uk' := if mk[k] == 1 then Without(uk, k) else uk;
    RemoveId(ut[j], t);
    RemoveId(uk, k);
    forall k' | k' in uk' && k' != 0
      ensures k' < |mk'| && mk'[k'] == Serving(ut', kjt, k')
    {
      ServingWithout(ut, kjt, j, t, k');
    }
    if mk[k] == 1 {
      ServingWithout(ut, kjt, j, t, k);
      UnservedDish(ut', kjt, k);
      ActiveSumWithout(uk, mk', k);
    }
    forall j', t' | 0 <= j' < |ut'| && t' in ut'[j'] && t' != 0
      ensures DishOf(kjt[j'], t') in uk' && DishOf(kjt[j'], t') != 0
    {
      assert t' in ut[j'];
    }
  }

  /**
   * `add_new_dish`: the smallest free id `g` joins `using_k` with
   * `m_k[g] = 0`, the counters possibly having grown by slots beyond the
   * active ids. Only `g` may then be an active dish without tables.
   */
  lemma OpenDish(ut: seq<seq<nat>>, kjt: seq<seq<nat>>, uk: seq<nat>, mk: seq<nat>, m: nat,
                 g: nat, mk': seq<nat>)
    requires TableCount(uk, mk, m, 0)
    requires IsRegistry(uk) && forall k :: k in uk ==> k < |mk|
    requires 0 < g <= |uk| && g !in uk
    requires forall p :: 0 <= p < g ==> uk[p] == p
    requires g < |uk| ==> uk[g] > g
    requires |mk| <= |mk'| && g < |mk'| && mk'[g] == 0
    requires forall k :: 0 <= k < |mk| && k != g ==> mk'[k] == mk[k]
    ensures TableCount(Inserted(uk, g), mk', m, g)
    ensures DishTables(ut, kjt, uk, mk) ==> DishTables(ut, kjt, Inserted(uk, g), mk')
  {
    InsertGap(uk, g);
    forall p | 0 <= p < |uk|
      ensures Weight(mk, uk[p]) == Weight(mk', uk[p])
    {
      assert uk[p] in uk;
    }
    ActiveSumFrame(uk, mk, mk');
    ActiveSumInserted(uk, mk', g);
    if DishTables(ut, kjt, uk, mk) {
      ServingNone(ut, kjt, g);
    }
  }

  /**
   * `add_new_table(j, k)`: the smallest free id `g` joins `using_t[j]` with
   * dish `k`, and `m_k[k]` and `m` grow by one. The dish `k` (possibly just
   * opened) now has a table, and both dish invariants hold.
   */
  lemma OpenTableAtDish(ut: seq<seq<nat>>, kjt: seq<seq<nat>>, uk: seq<nat>, mk: seq<nat>, m: nat,
                        j: nat, g: nat, kj': seq<nat>, k: nat)
    requires DishTables(ut, kjt, uk, mk) && TableCount(uk, mk, m, k)
    requires IsRegistry(uk) && k in uk && k != 0 && k < |mk|
    requires j < |ut| && IsRegistry(ut[j]) && 0 < g <= |ut[j]| && g !in ut[j]
    requires forall p :: 0 <= p < g ==> ut[j][p] == p
    requires g < |ut[j]| ==> ut[j][g] > g
    requires forall t :: t in ut[j] ==> DishOf(kj', t) == DishOf(kjt[j], t)
    requires DishOf(kj', g) == k
    ensures var ut' := ut[j := Inserted(ut[j], g)];
            var kjt' := kjt[j := kj'];
            DishTables(ut', kjt', uk, mk[k := mk[k] + 1]) &&
            TableCount(uk, mk[k := mk[k] + 1], m + 1, 0)
  {
    var ut' := ut[j := Inserted(ut[j], g)];
    var kjt' := kjt[j := kj'];
    var mk' := mk[k := mk[k] + 1];
    ActiveSumChange(uk, mk, k, mk[k] + 1);
    forall p | 0 <= p < |ut[j]| && ut[j][p] != 0
      ensures DishOf(kj', ut[j][p]) == DishOf(kjt[j], ut[j][p])
    {
      assert ut[j][p] in ut[j];
    }
    forall k' | k' in uk && k' != 0
      ensures k' < |mk'| && mk'[k'] == Serving(ut', kjt', k')
    {
      ServingUpdate(ut, kjt, j, Inserted(ut[j], g), kj', k');
      CountServingInserted(ut[j], kj', g, k');
      CountServingFrame(ut[j], kj', kjt[j], k');
    }
    forall j', t | 0 <= j' < |ut'| && t in ut'[j'] && t != 0
      ensures DishOf(kjt'[j'], t) in uk && DishOf(kjt'[j'], t) != 0
    {
      if j' == j {
        InsertGap(ut[j], g);
      }
    }
  }

  /**
   * `leave_from_dish(j, t)`: `m_k[k]` and `m` drop by one for the table's
   * dish `k`, and `k` leaves `using_k` exactly when `m_k[k]` reaches 0.
   * The table total is kept.
   */
  lemma LeaveDish(uk: seq<nat>, mk: seq<nat>, m: nat, k: nat)
    requires TableCount(uk, mk, m, 0)
    requires IsRegistry(uk) && k in uk && k != 0
    ensures k < |mk| && mk[k] >= 1 && m >= 1
    ensures var mk' := mk[k := mk[k] - 1];
            var uk' := if mk[k] == 1 then Without(uk, k) else uk;
            TableCount(uk', mk', m - 1, 0)
  {
    ActiveSumChange(uk, mk, k, mk[k] - 1);
    RemoveId(uk, k);
    if mk[k] == 1 {
      ActiveSumWithout(uk, mk[k := mk[k] - 1], k);
    }
  }

  /**
   * `seat_at_dish(j, t, k)`: `m_k[k]` and `m` grow by one for an active dish
   * `k` (possibly just opened). The table total is kept.
   */
  lemma JoinDish(uk: seq<nat>, mk: seq<nat>, m: nat, k: nat)
    requires TableCount(uk, mk, m, k)
    requires IsRegistry(uk) && k in uk && k != 0 && k < |mk|
    ensures TableCount(uk, mk[k := mk[k] + 1], m + 1, 0)
  {
    ActiveSumChange(uk, mk, k, mk[k] + 1);
  }
}
