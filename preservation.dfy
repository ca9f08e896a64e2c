/**
 * What the sampler's steps keep: each lemma takes a state in which the
 * counters agree with the seating (`Consistent`, or the part of it the step
 * needs) and shows that the state after the step agrees again, and which
 * tables and dishes it leaves active.
 */
module Preservation {
  import opened Vectors
  import opened Registry
  import opened Tally
  import opened Tables
  import opened Dishes
  import opened Bookkeeping

  /**
   * A step that changes the table counters of document `j` only: the
   * counters agree with the seating `ts'` (equal to `ts` elsewhere) in every
   * document as soon as they do in document `j`.
   */
  lemma OtherDocsKept(b: Books, r: Books, ts: seq<seq<nat>>, ts': seq<seq<nat>>, j: nat, et0: nat, et: nat)
    requires Seating(b, ts, j, et0) && Sums(b) && j < b.M
    requires r.M == b.M && r.words == b.words && |ts'| == |ts|
    requires |r.activeTables| == b.M && |r.tableSize| == b.M && |r.tableWords| == b.M
    requires forall j' :: 0 <= j' < b.M && j' != j ==>
               r.activeTables[j'] == b.activeTables[j'] && r.tableSize[j'] == b.tableSize[j'] &&
               r.tableWords[j'] == b.tableWords[j']
    requires forall j' :: 0 <= j' < |ts| && j' != j ==> ts'[j'] == ts[j']
    requires j < |b.words| ==> Seated(ts'[j], r.words[j], r.activeTables[j], r.tableSize[j], r.tableWords[j], et)
    requires TableSums(r.tableSize[j], r.tableWords[j])
    ensures Seating(r, ts', j, et) && Sums(r)
  {
    forall j' | 0 <= j' < b.M && j' < |b.words|
      ensures Seated(ts'[j'], r.words[j'], r.activeTables[j'], r.tableSize[j'], r.tableWords[j'], if j' == j then et else 0)
    {
      if j' != j {
        assert Seated(ts[j'], b.words[j'], b.activeTables[j'], b.tableSize[j'], b.tableWords[j'], 0);
      }
    }
    forall j' | 0 <= j' < b.M
      ensures TableSums(r.tableSize[j'], r.tableWords[j'])
    {
      if j' != j {
        assert TableSums(b.tableSize[j'], b.tableWords[j']);
      }
    }
  }

  /**
   * `remove_table` on an active table: its dish and the total lose exactly
   * that table, the table leaves the document's list, and its dish leaves
   * the active dishes exactly when this was its last table.
   */
  lemma RemovedTableKeeps(b: Books, j: nat, t: nat)
    requires WellShaped(b) && Served(b) && Count(b, 0)
    requires j < b.M && t in b.activeTables[j] && t != 0
    ensures CanRemoveTable(b, j, t)
    ensures var r, k := RemovedTable(b, j, t), b.tableDish[j][t];
            Served(r) && Count(r, 0) &&
            (forall x :: x in r.activeTables[j] <==> x in b.activeTables[j] && x != t) &&
            (forall x :: x in r.activeDishes <==> x in b.activeDishes && (x != k || b.dishTables[k] != 1))
  {
    assert DocShape(b.activeTables[j], b.tableDish[j], b.tableSize[j], b.tableWords[j], |b.dishTables|);
    CloseTable(b.activeTables, b.tableDish, b.activeDishes, b.dishTables, b.totalTables, j, t);
    var k := b.tableDish[j][t];
    assert DishOf(b.tableDish[j], t) == k;
    RemoveId(b.activeTables[j], t);
    RemoveId(b.activeDishes, k);
  }

  /**
   * In a consistent state `leave_from_dish` may run on every active table
   * other than the sentinel: its dish is active and not the sentinel, that
   * dish has a table, and so does the franchise.
   */
  lemma CanLeaveDishHolds(b: Books, j: nat, t: nat)
    requires Consistent(b) && j < b.M && t in b.activeTables[j] && t != 0
    ensures CanLeaveDish(b, j, t)
  {
    assert DocShape(b.activeTables[j], b.tableDish[j], b.tableSize[j], b.tableWords[j], |b.dishTables|);
    var k := DishOf(b.tableDish[j], t);
    assert k == b.tableDish[j][t] && k in b.activeDishes && k != 0;
    ActiveSumChange(b.activeDishes, b.dishTables, k, b.dishTables[k]);
  }

  /** In a consistent state every token may leave its table. */
  lemma CanLeaveHolds(b: Books, j: nat, i: nat)
    requires Consistent(b) && Token(b, j, i)
    ensures CanLeave(b, j, i)
  {
    var t, ts, xs, ut := b.tokenTable[j][i], b.tokenTable[j], b.words[j], b.activeTables[j];
    if t != 0 {
      assert DocShape(ut, b.tableDish[j], b.tableSize[j], b.tableWords[j], |b.dishTables|);
      assert Seated(ts, xs, ut, b.tableSize[j], b.tableWords[j], 0);
      assert TableSums(b.tableSize[j], b.tableWords[j]);
      LeaveToken(ts, xs, ut, b.tableSize[j], b.tableWords[j], i);
      CloseTable(b.activeTables, b.tableDish, b.activeDishes, b.dishTables, b.totalTables, j, t);
      assert DishOf(b.tableDish[j], t) == b.tableDish[j][t];
    }
  }

  /**
   * A seated token leaving its table: the counters agree with the seating in
   * which the token is off every table, and with the table list in which its
   * table is gone when it held only this token.
   */
  lemma TokenLeftKeeps(b: Books, j: nat, i: nat)
    requires Consistent(b) && Token(b, j, i) && b.tokenTable[j][i] != 0
    ensures CanLeave(b, j, i)
    ensures var r, t := TokenLeft(b, j, i), b.tokenTable[j][i];
            var ut := if b.tableSize[j][t] == 1 then Without(b.activeTables[j], t) else b.activeTables[j];
            r.tableSize[j][t] == b.tableSize[j][t] - 1 &&
            Seating(r.(activeTables := r.activeTables[j := ut]), Reseat(b.tokenTable, j, i, 0), 0, 0) &&
            Sums(r) && Served(r) && Count(r, 0)
  {
    var t, ts, xs, ut := b.tokenTable[j][i], b.tokenTable[j], b.words[j], b.activeTables[j];
    assert DocShape(ut, b.tableDish[j], b.tableSize[j], b.tableWords[j], |b.dishTables|);
    assert Seated(ts, xs, ut, b.tableSize[j], b.tableWords[j], 0);
    assert TableSums(b.tableSize[j], b.tableWords[j]);
    LeaveToken(ts, xs, ut, b.tableSize[j], b.tableWords[j], i);
    CloseTable(b.activeTables, b.tableDish, b.activeDishes, b.dishTables, b.totalTables, j, t);
    assert DishOf(b.tableDish[j], t) == b.tableDish[j][t];
    assert CanLeave(b, j, i);
    var r := TokenLeft(b, j, i);
    var ut' := if b.tableSize[j][t] == 1 then Without(ut, t) else ut;
    var r' := r.(activeTables := r.activeTables[j := ut']);
    var us := Reseat(b.tokenTable, j, i, 0);
    assert us[j] == ts[i := 0];
    OtherDocsKept(b, r', b.tokenTable, us, j, 0, 0);
    assert Sums(r);
  }

  /**
   * `leave_from_table` on a consistent state: the counters agree with the
   * seating in which the token is off every table, and the rest of the
   * invariant holds again.
   */
  lemma LeftTableKeeps(b: Books, j: nat, i: nat)
    requires Consistent(b) && Token(b, j, i)
    ensures CanLeave(b, j, i)
    ensures var r := LeftTable(b, j, i);
            Seating(r, Reseat(b.tokenTable, j, i, 0), 0, 0) && Sums(r) && Served(r) && Count(r, 0)
  {
    var t := b.tokenTable[j][i];
    if t != 0 {
      TokenLeftKeeps(b, j, i);
      var b1 := TokenLeft(b, j, i);
      if b1.tableSize[j][t] == 0 {
        RemovedTableKeeps(b1, j, t);
        RemoveId(b1.activeTables[j], t);
        assert RemovedTable(b1, j, t).activeTables == b1.activeTables[j := Without(b1.activeTables[j], t)];
      } else {
        assert b1.(activeTables := b1.activeTables[j := b1.activeTables[j]]) == b1;
      }
    } else {
      assert b.tokenTable[j][i := 0] == b.tokenTable[j];
      assert Reseat(b.tokenTable, j, i, 0) == b.tokenTable;
    }
  }

  /**
   * What `leave_from_table` changes besides the token counters: a token
   * that was not seated changes nothing; otherwise its table leaves the
   * document's list exactly when it held only this token, and then its dish
   * and the total lose a table, the dish leaving the active dishes when that
   * was its last table.
   */
  lemma LeftTableEffect(b: Books, j: nat, i: nat)
    requires Consistent(b) && Token(b, j, i)
    ensures CanLeave(b, j, i)
    ensures var r, t := LeftTable(b, j, i), b.tokenTable[j][i];
            (t == 0 ==> r == b) &&
            (t != 0 ==>
               var k := b.tableDish[j][t];
               var closes := b.tableSize[j][t] == 1;
               r.activeTables == b.activeTables[j := if closes then Without(b.activeTables[j], t) else b.activeTables[j]] &&
               r.activeDishes == (if closes && b.dishTables[k] == 1 then Without(b.activeDishes, k) else b.activeDishes) &&
               r.dishTables == (if closes then b.dishTables[k := b.dishTables[k] - 1] else b.dishTables) &&
               r.totalTables == (if closes then b.totalTables - 1 else b.totalTables))
  {
    CanLeaveHolds(b, j, i);
    var t := b.tokenTable[j][i];
    if t != 0 {
      var b1 := TokenLeft(b, j, i);
      assert b1.tableSize[j][t] == b.tableSize[j][t] - 1;
      if b1.tableSize[j][t] == 0 {
        assert b.activeTables[j] == b1.activeTables[j];
      } else {
        assert b.activeTables[j := b.activeTables[j]] == b.activeTables;
      }
    }
  }

  /**
   * `seat_at_table` on an active table other than the sentinel, for a token
   * that is off every table: the counters agree with the seating in which the
   * token sits at `t`. The table may be `et`, the one table allowed to be
   * active without tokens (just opened for this token).
   */
  lemma SeatedAtKeeps(b: Books, j: nat, i: nat, t: nat, et: nat)
    requires Token(b, j, i) && t in b.activeTables[j] && t != 0 && (et == 0 || et == t)
    requires Seating(b, Reseat(b.tokenTable, j, i, 0), j, et) && Sums(b)
    ensures var r := SeatedAt(b, j, i, t);
            Seating(r, r.tokenTable, 0, 0) && Sums(r) &&
            r.tableSize[j][t] == b.tableSize[j][t] + 1 &&
            (Served(b) ==> Served(r)) && (Count(b, 0) ==> Count(r, 0))
  {
    var us, xs, ut := Reseat(b.tokenTable, j, i, 0), b.words[j], b.activeTables[j];
    assert DocShape(ut, b.tableDish[j], b.tableSize[j], b.tableWords[j], |b.dishTables|);
    assert Seated(us[j], xs, ut, b.tableSize[j], b.tableWords[j], et);
    assert TableSums(b.tableSize[j], b.tableWords[j]);
    SeatToken(us[j], xs, ut, b.tableSize[j], b.tableWords[j], i, t, et);
    var r := SeatedAt(b, j, i, t);
    var seated: seq<nat> := us[j][i := t];
    assert r.tokenTable[j] == seated;
    OtherDocsKept(b, r, us, r.tokenTable, j, et, 0);
    assert Seating(r, r.tokenTable, 0, 0);
  }

  /**
   * `add_new_dish`: the new id is the smallest one not in use, the dish
   * arrays grow by a slot exactly when the id equals the number of active
   * dishes, the new dish starts with no tables, `beta * V` tokens and zero
   * word counters below `V`, and every other dish slot is kept.
   */
  lemma WithNewDishShape(b: Books)
    requires WellShaped(b)
    ensures var r, k := WithNewDish(b).0, WithNewDish(b).1;
            k !in b.activeDishes && (forall x :: 0 <= x < k ==> x in b.activeDishes) &&
            |r.dishTables| == |b.dishTables| + (if k == |b.activeDishes| then 1 else 0) &&
            k < |r.dishTables| && r.dishTables[k] == 0 && r.dishTotal[k] == b.beta * b.V as real &&
            (forall v: nat :: v < b.V ==> Get(r.dishWords[k], v) == 0) &&
            (forall x :: 0 <= x < |b.dishTables| && x != k ==>
               r.dishTables[x] == b.dishTables[x] && r.dishTotal[x] == b.dishTotal[x] &&
               r.dishWords[x] == b.dishWords[x])
  {
    GapIsSmallestFree(b.activeDishes);
    RegistryLength(b.activeDishes, |b.dishTables|);
  }

  /**
   * `add_new_dish` keeps the table counts right, the new dish being the one
   * allowed to have no table yet, and keeps every table serving an active
   * dish that counts it.
   */
  lemma WithNewDishKeeps(b: Books)
    requires WellShaped(b) && Count(b, 0)
    ensures Count(WithNewDish(b).0, WithNewDish(b).1)
    ensures Served(b) ==> Served(WithNewDish(b).0)
  {
    var ids := b.activeDishes;
    var k := Gap(ids);
    GapIsSmallestFree(ids);
    RegistryLength(ids, |b.dishTables|);
    var r := WithNewDish(b).0;
    OpenDish(b.activeTables, b.tableDish, ids, b.dishTables, b.totalTables, k, r.dishTables);
  }

  /**
   * `add_new_table(j, k)`: the new id is the smallest one not in use in the
   * document, its arrays grow by a slot exactly when the id equals the number
   * of its active tables, and the new table has no tokens, zero word counters
   * below `V` and dish `k`, which gains a table, as does the total.
   */
  lemma WithNewTableShape(b: Books, j: nat, k: nat)
    requires WellShaped(b) && j < b.M && k in b.activeDishes
    ensures var r, t := WithNewTable(b, j, k).0, WithNewTable(b, j, k).1;
            t !in b.activeTables[j] && (forall x :: 0 <= x < t ==> x in b.activeTables[j]) &&
            |r.tableSize[j]| == |b.tableSize[j]| + (if t == |b.activeTables[j]| then 1 else 0) &&
            t < |r.tableSize[j]| && r.tableSize[j][t] == 0 && r.tableDish[j][t] == k &&
            (forall v: nat :: v < b.V ==> Get(r.tableWords[j][t], v) == 0) &&
            r.dishTables == b.dishTables[k := b.dishTables[k] + 1] && r.totalTables == b.totalTables + 1 &&
            r.tableDish == b.tableDish[j := r.tableDish[j]] &&
            (forall x :: x in b.activeTables[j] ==> DishOf(r.tableDish[j], x) == DishOf(b.tableDish[j], x))
  {
    var ut := b.activeTables[j];
    assert DocShape(ut, b.tableDish[j], b.tableSize[j], b.tableWords[j], |b.dishTables|);
    GapIsSmallestFree(ut);
    RegistryLength(ut, |b.tableSize[j]|);
  }

  /** `add_new_table(j, k)`: the table counters agree with the seating, the new table empty. */
  lemma WithNewTableSeats(b: Books, j: nat, k: nat, ts: seq<seq<nat>>)
    requires WellShaped(b) && j < b.M && j < |b.words| && k in b.activeDishes
    requires Seating(b, ts, 0, 0) && Sums(b)
    ensures var r, t := WithNewTable(b, j, k).0, WithNewTable(b, j, k).1;
            Seating(r, ts, j, t) && Sums(r)
  {
    var ut, nj, nv := b.activeTables[j], b.tableSize[j], b.tableWords[j];
    assert DocShape(ut, b.tableDish[j], nj, nv, |b.dishTables|);
    var t := Gap(ut);
    GapIsSmallestFree(ut);
    RegistryLength(ut, |nj|);
    var r := WithNewTable(b, j, k).0;
    var nj', nv' := r.tableSize[j], r.tableWords[j];
    assert Seated(ts[j], b.words[j], ut, nj, nv, 0);
    assert TableSums(nj, nv);
    forall w
      ensures Get(nv'[t], w) == 0 || (t < |nv| && Get(nv'[t], w) == Get(nv[t], w))
    {
    }
    OpenTable(ts[j], b.words[j], ut, nj, nv, t, nj', nv');
    OtherDocsKept(b, r, ts, ts, j, 0, t);
  }

  /** `add_new_table(j, k)`: the dish counters count the new table for dish `k`. */
  lemma WithNewTableServes(b: Books, j: nat, k: nat)
    requires WellShaped(b) && j < b.M && k in b.activeDishes && k != 0
    requires Served(b) && Count(b, k)
    ensures Served(WithNewTable(b, j, k).0) && Count(WithNewTable(b, j, k).0, 0)
  {
    var ut, kj := b.activeTables[j], b.tableDish[j];
    var r, t := WithNewTable(b, j, k).0, WithNewTable(b, j, k).1;
    var kj' := r.tableDish[j];
    assert IsRegistry(ut) && 0 < t <= |ut| && t !in ut && (forall p :: 0 <= p < t ==> ut[p] == p) &&
           (t < |ut| ==> ut[t] > t) by {
      assert DocShape(ut, kj, b.tableSize[j], b.tableWords[j], |b.dishTables|);
      GapIsSmallestFree(ut);
    }
    assert DishOf(kj', t) == k && (forall x :: x in ut ==> DishOf(kj', x) == DishOf(kj, x)) &&
           r.activeTables == b.activeTables[j := Inserted(ut, t)] && r.tableDish == b.tableDish[j := kj'] &&
           r.dishTables == b.dishTables[k := b.dishTables[k] + 1] && r.totalTables == b.totalTables + 1 by {
      WithNewTableShape(b, j, k);
    }
    OpenTableAtDish(b.activeTables, b.tableDish, b.activeDishes, b.dishTables, b.totalTables, j, t, kj', k);
    assert r.activeDishes == b.activeDishes;
  }

  /**
   * `add_new_table(j, k)` on an active dish: the counters agree with the
   * seating again, the new table being the one allowed to have no token yet,
   * and the dish's table count includes the new table.
   */
  lemma WithNewTableKeeps(b: Books, j: nat, k: nat, ts: seq<seq<nat>>)
    requires WellShaped(b) && j < b.M && j < |b.words| && k in b.activeDishes && k != 0
    requires Seating(b, ts, 0, 0) && Sums(b) && Served(b) && Count(b, k)
    ensures var r, t := WithNewTable(b, j, k).0, WithNewTable(b, j, k).1;
            Seating(r, ts, j, t) && Sums(r) && Served(r) && Count(r, 0)
  {
    WithNewTableSeats(b, j, k, ts);
    WithNewTableServes(b, j, k);
  }

  /**
   * The dish a sampling step settles on: the sampled one, or else the
   * smallest free dish id, which joins the active dishes with no tables. The
   * table counts stay right (that dish being the one allowed to have no table
   * yet) and so does everything about the tables.
   */
  lemma DishForKeeps(b: Books, dishIndex: nat)
    requires WellShaped(b) && dishIndex < |b.activeDishes| && Count(b, 0)
    ensures var r, d, k := DishFor(b, dishIndex).0, DishFor(b, dishIndex).1, b.activeDishes[dishIndex];
            d == (if k != 0 then k else Gap(b.activeDishes)) &&
            r.activeDishes == (if k != 0 then b.activeDishes else Inserted(b.activeDishes, d)) &&
            d < |r.dishTables| && r.dishTables[d] == (if k != 0 then b.dishTables[k] else 0) &&
            Count(r, d) && (Served(b) ==> Served(r))
  {
    var k := b.activeDishes[dishIndex];
    if k == 0 {
      WithNewDishShape(b);
      WithNewDishKeeps(b);
    } else {
      assert k in b.activeDishes;
    }
  }

  /**
   * The tables the new-table branch of `sampling_t` opens: the smallest free
   * table id of the document, at the sampled dish or, when that is the
   * sentinel, at the smallest free dish id, which joins the active dishes.
   */
  lemma OpenedForShape(b: Books, j: nat, dishIndex: nat)
    requires WellShaped(b) && j < b.M && dishIndex < |b.activeDishes|
    ensures var r, t, k := OpenedFor(b, j, dishIndex).0, OpenedFor(b, j, dishIndex).1, b.activeDishes[dishIndex];
            var chosen := if k != 0 then k else Gap(b.activeDishes);
            r.activeTables == b.activeTables[j := Inserted(b.activeTables[j], t)] &&
            r.activeDishes == (if k != 0 then b.activeDishes else Inserted(b.activeDishes, chosen)) &&
            t < |r.tableDish[j]| && r.tableDish[j][t] == chosen && r.totalTables == b.totalTables + 1
  {
    var withDish := DishFor(b, dishIndex);
    WithNewTableShape(withDish.0, j, withDish.1);
  }

  /**
   * The tables the new-table branch of `sampling_t` opens keep the counters
   * in step with a seating, the new table being the one without tokens.
   */
  lemma OpenedForKeeps(b: Books, j: nat, dishIndex: nat, ts: seq<seq<nat>>)
    requires WellShaped(b) && j < b.M && j < |b.words| && dishIndex < |b.activeDishes|
    requires Seating(b, ts, 0, 0) && Sums(b) && Served(b) && Count(b, 0)
    ensures var r, t := OpenedFor(b, j, dishIndex).0, OpenedFor(b, j, dishIndex).1;
            Seating(r, ts, j, t) && Sums(r) && Served(r) && Count(r, 0)
  {
    var withDish := DishFor(b, dishIndex);
    DishForKeeps(b, dishIndex);
    WithNewTableKeeps(withDish.0, j, withDish.1, ts);
  }

  /**
   * The new-table branch of `sampling_t`, from the state in which the token
   * has left its table: the token sits at the table opened for it, and the
   * state is consistent again.
   */
  lemma SeatedAtNewTableKeeps(b: Books, j: nat, i: nat, dishIndex: nat)
    requires Token(b, j, i) && dishIndex < |b.activeDishes|
    requires Seating(b, Reseat(b.tokenTable, j, i, 0), 0, 0) && Sums(b) && Served(b) && Count(b, 0)
    ensures var r, t := SeatedAtNewTable(b, j, i, dishIndex), Gap(b.activeTables[j]);
            Consistent(r) && r.tokenTable == Reseat(b.tokenTable, j, i, t) && t in r.activeTables[j]
  {
    var us := Reseat(b.tokenTable, j, i, 0);
    var withDish := OpenedFor(b, j, dishIndex);
    OpenedForKeeps(b, j, dishIndex, us);
    assert Reseat(withDish.0.tokenTable, j, i, 0) == us;
    SeatedAtKeeps(withDish.0, j, i, withDish.1, withDish.1);
  }

  /**
   * `sampling_t` on a consistent state, whatever positions are sampled:
   * the state is consistent again, and the token, the only entry of `t_ji`
   * that changes, sits at an active table other than the sentinel.
   */
  lemma SampledTableKeeps(b: Books, j: nat, i: nat, tableIndex: nat, dishIndex: nat)
    requires Consistent(b) && Token(b, j, i) && CanLeave(b, j, i)
    requires tableIndex < |LeftTable(b, j, i).activeTables[j]|
    requires LeftTable(b, j, i).activeTables[j][tableIndex] == 0 ==>
               dishIndex < |LeftTable(b, j, i).activeDishes|
    ensures var r := SampledTable(b, j, i, tableIndex, dishIndex);
            var t := r.tokenTable[j][i];
            Consistent(r) && r.tokenTable == Reseat(b.tokenTable, j, i, t) &&
            t != 0 && t in r.activeTables[j]
  {
    LeftTableKeeps(b, j, i);
    var left := WordRead(LeftTable(b, j, i), b.words[j][i]);
    var us := Reseat(b.tokenTable, j, i, 0);
    assert Reseat(left.tokenTable, j, i, 0) == us;
    var chosen := left.activeTables[j][tableIndex];
    if chosen != 0 {
      assert Seating(left, us, j, 0);
      SeatedAtKeeps(left, j, i, chosen, 0);
    } else {
      SeatedAtNewTableKeeps(left, j, i, dishIndex);
      GapIsSmallestFree(left.activeTables[j]);
    }
  }

  /**
   * Where `sampling_t` seats the token: at the sampled table, changing no
   * table or dish list; or else at the smallest free table id, which joins
   * the document's tables and serves the sampled dish or, when that is the
   * sentinel, the smallest free dish id, which joins the active dishes.
   */
  lemma SampledTableEffect(b: Books, j: nat, i: nat, tableIndex: nat, dishIndex: nat)
    requires CanLeave(b, j, i)
    requires tableIndex < |LeftTable(b, j, i).activeTables[j]|
    requires LeftTable(b, j, i).activeTables[j][tableIndex] == 0 ==>
               dishIndex < |LeftTable(b, j, i).activeDishes|
    ensures var r, left := SampledTable(b, j, i, tableIndex, dishIndex), LeftTable(b, j, i);
            var t, chosen := r.tokenTable[j][i], left.activeTables[j][tableIndex];
            (chosen != 0 ==>
               t == chosen && r.activeTables == left.activeTables && r.activeDishes == left.activeDishes &&
               r.dishTables == left.dishTables && r.totalTables == left.totalTables) &&
            (chosen == 0 ==>
               var k := left.activeDishes[dishIndex];
               t == Gap(left.activeTables[j]) &&
               r.activeTables == left.activeTables[j := Inserted(left.activeTables[j], t)] &&
               t < |r.tableDish[j]| && r.tableDish[j][t] == (if k != 0 then k else Gap(left.activeDishes)) &&
               r.activeDishes == (if k != 0 then left.activeDishes else Inserted(left.activeDishes, Gap(left.activeDishes))) &&
               r.totalTables == left.totalTables + 1)
  {
    var read := WordRead(LeftTable(b, j, i), b.words[j][i]);
    if read.activeTables[j][tableIndex] == 0 {
      OpenedForShape(read, j, dishIndex);
    }
  }

  /** Every dish row of `b` is still there in `r`, with at least the same words as keys. */
  predicate RowsKept(b: Books, r: Books)
  {
    |b.dishWords| <= |r.dishWords| &&
    forall k, x :: 0 <= k < |b.dishWords| && x in b.dishWords[k] ==> x in r.dishWords[k]
  }

  /** `leave_from_table` keeps the number of dish rows. */
  lemma LeftTableRows(b: Books, j: nat, i: nat)
    requires CanLeave(b, j, i)
    ensures |LeftTable(b, j, i).dishWords| == |b.dishWords|
  {
    var t := b.tokenTable[j][i];
    if t != 0 {
      var b1 := TokenLeft(b, j, i);
      assert |b1.dishWords| == |b.dishWords|;
    }
  }

  /** `seat_at_table` keeps every dish row and its keys. */
  lemma SeatedAtRows(b: Books, j: nat, i: nat, t: nat)
    requires Token(b, j, i) && t in b.activeTables[j]
    ensures RowsKept(b, SeatedAt(b, j, i, t))
  {
  }

  /** Choosing the dish of a new table, `add_new_dish` included, keeps every dish row and its keys. */
  lemma DishForRows(b: Books, dishIndex: nat)
    requires WellShaped(b) && dishIndex < |b.activeDishes|
    ensures RowsKept(b, DishFor(b, dishIndex).0)
  {
  }

  /** `add_new_table` keeps every dish row and its keys. */
  lemma WithNewTableRows(b: Books, j: nat, k: nat)
    requires WellShaped(b) && j < b.M && k in b.activeDishes
    ensures RowsKept(b, WithNewTable(b, j, k).0)
  {
  }

  /**
   * After `sampling_t`, every dish row `n_kv[k]` that existed before has the
   * token's word as a key: `calc_f_k` inserted it, and no later step of the
   * call drops a row or a key.
   */
  lemma SampledTableReads(b: Books, j: nat, i: nat, tableIndex: nat, dishIndex: nat)
    requires CanLeave(b, j, i)
    requires tableIndex < |LeftTable(b, j, i).activeTables[j]|
    requires LeftTable(b, j, i).activeTables[j][tableIndex] == 0 ==>
               dishIndex < |LeftTable(b, j, i).activeDishes|
    ensures var r := SampledTable(b, j, i, tableIndex, dishIndex);
            |b.dishWords| <= |r.dishWords| &&
            forall k :: 0 <= k < |b.dishWords| ==> b.words[j][i] in r.dishWords[k]
  {
    var v := b.words[j][i];
    LeftTableRows(b, j, i);
    var read := WordRead(LeftTable(b, j, i), v);
    var chosen := read.activeTables[j][tableIndex];
    if chosen != 0 {
      SeatedAtRows(read, j, i, chosen);
    } else {
      var d := DishFor(read, dishIndex);
      var o := WithNewTable(d.0, j, d.1);
      DishForRows(read, dishIndex);
      WithNewTableRows(d.0, j, d.1);
      SeatedAtRows(o.0, j, i, o.1);
      assert o.0 == OpenedFor(read, j, dishIndex).0;
    }
  }

  /**
   * `leave_from_dish`: the table's dish and the total lose one table, the
   * dish leaves the active dishes exactly when that was its last table, and
   * only then is the table's dish reset to the sentinel.
   */
  lemma LeftDishKeeps(b: Books, j: nat, t: nat)
    requires Count(b, 0) && CanLeaveDish(b, j, t)
    ensures var r, k := LeftDish(b, j, t), b.tableDish[j][t];
            Count(r, 0) &&
            r.dishTables == b.dishTables[k := b.dishTables[k] - 1] && r.totalTables == b.totalTables - 1 &&
            (forall x :: x in r.activeDishes <==> x in b.activeDishes && (x != k || b.dishTables[k] != 1)) &&
            r.tableDish == (if b.dishTables[k] == 1 then b.tableDish[j := b.tableDish[j][t := 0]] else b.tableDish)
  {
    var r, k := LeftDish(b, j, t), b.tableDish[j][t];
    assert Count(r, 0) by {
      LeaveDish(b.activeDishes, b.dishTables, b.totalTables, k);
    }
    assert forall x :: x in r.activeDishes <==> x in b.activeDishes && (x != k || b.dishTables[k] != 1) by {
      RemoveId(b.activeDishes, k);
    }
  }

  /** The table joining its new dish adds one to the table total and keeps it right. */
  lemma JoinedDishKeeps(b: Books, j: nat, t: nat, dishIndex: nat)
    requires WellShaped(b) && j < b.M && t < |b.tableDish[j]| && dishIndex < |b.activeDishes|
    requires Count(b, 0)
    ensures var r := JoinedDish(b, j, t, dishIndex);
            Count(r, 0) && r.totalTables == b.totalTables + 1
  {
    var withDish := DishFor(b, dishIndex);
    var r := SeatedAtDish(withDish.0, j, t, withDish.1);
    assert r == JoinedDish(b, j, t, dishIndex);
    assert Count(withDish.0, withDish.1) by {
      DishForKeeps(b, dishIndex);
    }
    JoinDish(withDish.0.activeDishes, withDish.0.dishTables, withDish.0.totalTables, withDish.1);
  }

  /**
   * `sampling_k` keeps the table total right whatever dish is sampled: the
   * dish the table joins gains the table its old dish lost.
   */
  lemma SampledDishKeeps(b: Books, j: nat, t: nat, dishIndex: nat)
    requires Count(b, 0) && CanLeaveDish(b, j, t)
    requires dishIndex < |LeftDish(b, j, t).activeDishes|
    ensures var r := SampledDish(b, j, t, dishIndex);
            Count(r, 0) && r.totalTables == b.totalTables
  {
    var b1 := LeftDish(b, j, t);
    assert Count(b1, 0) && b1.totalTables == b.totalTables - 1 by {
      LeftDishKeeps(b, j, t);
    }
    JoinedDishKeeps(DishPosteriorEffect(b1, j, t), j, t, dishIndex);
  }

  /**
   * The dish `sampling_k` gives the table: the sampled one, or else the
   * smallest free dish id, which joins the active dishes; either way it
   * gains one table.
   */
  lemma SampledDishEffect(b: Books, j: nat, t: nat, dishIndex: nat)
    requires CanLeaveDish(b, j, t)
    requires dishIndex < |LeftDish(b, j, t).activeDishes|
    ensures var r, left := SampledDish(b, j, t, dishIndex), LeftDish(b, j, t);
            var k := left.activeDishes[dishIndex];
            var chosen := if k != 0 then k else Gap(left.activeDishes);
            r.activeDishes == (if k != 0 then left.activeDishes else Inserted(left.activeDishes, chosen)) &&
            chosen < |r.dishTables| && r.dishTables[chosen] == (if k != 0 then left.dishTables[k] else 0) + 1
  {
    var b2 := DishPosteriorEffect(LeftDish(b, j, t), j, t);
    if b2.activeDishes[dishIndex] == 0 {
      WithNewDishShape(b2);
    }
  }

  /** A step that leaves the corpus and every table counter alone keeps them in step with a seating. */
  lemma SameTablesKeep(b: Books, r: Books, ts: seq<seq<nat>>)
    requires Seating(b, ts, 0, 0) && Sums(b) && SameCorpus(b, r)
    requires r.activeTables == b.activeTables && r.tableSize == b.tableSize && r.tableWords == b.tableWords
    ensures Seating(r, ts, 0, 0) && Sums(r)
  {
  }

  /**
   * As written, `seat_at_dish` does not record the sampled dish on the table
   * when it differs from the table's dish, yet counts the table for it:
   * sampling an active dish other than the table's own (whose dish keeps
   * other tables) leaves `m_k` out of step with the tables serving each dish.
   */
  lemma SampledDishMiscounts(b: Books, j: nat, t: nat, dishIndex: nat)
    requires Served(b) && Count(b, 0) && CanLeaveDish(b, j, t) && b.dishTables[b.tableDish[j][t]] > 1
    requires dishIndex < |LeftDish(b, j, t).activeDishes|
    requires LeftDish(b, j, t).activeDishes[dishIndex] !in {0, b.tableDish[j][t]}
    ensures SampledDish(b, j, t, dishIndex).tableDish == b.tableDish
    ensures !Served(SampledDish(b, j, t, dishIndex))
  {
    LeftDishKeeps(b, j, t);
    var left := LeftDish(b, j, t);
    var k := left.activeDishes[dishIndex];
    var r := SampledDish(b, j, t, dishIndex);
    SampledDishEffect(b, j, t, dishIndex);
    assert left.tableDish == b.tableDish;
    assert r.dishTables[k] == b.dishTables[k] + 1;
  }

  /**
   * The constructor's state is consistent: no token is seated, every
   * document has only its sentinel table, and the sentinel dish is the only
   * active dish.
   */
  lemma InitialConsistent(V: nat, M: nat, beta: real, docs: seq<seq<nat>>)
    ensures Consistent(Initial(V, M, beta, docs))
  {
    var b := Initial(V, M, beta, docs);
    MapSumZero(map[]);
    ActiveSumOne(0, [1]);
    forall j | 0 <= j < M && j < |docs|
      ensures Seated(b.tokenTable[j], docs[j], [0], [0], [map[]], 0)
    {
    }
  }
}
