/**
 * The sampler state of HDP-LDA in the Chinese Restaurant Franchise
 * representation: documents are restaurants, tokens are customers seated at
 * tables, and every table serves a dish (a topic) shared across the
 * franchise. The class keeps the integer bookkeeping of the sampler and
 * updates it in place; the sampled positions of `sampling_t` and
 * `sampling_k` are passed in as parameters. Each method is proved to move
 * the state as the matching function of the Bookkeeping module says, and
 * the two sampling steps are proved to keep the counters consistent.
 */
module Franchise {
  import opened Vectors
  import opened Registry
  import opened Tally
  import opened Transfer
  import opened Definition
  import opened Bookkeeping
  import opened Preservation
  import opened Tallies

  class State {
    /** Vocabulary size. */
    const V: nat
    /** Number of documents. */
    const M: nat
    const alpha: real
    const beta: real
    const gamma: real
    /** `x_ji`: the word id of token `i` of document `j`. */
    const words: seq<seq<nat>>

    /** `using_t`: the active table ids of each document, sentinel 0 first. */
    var activeTables: seq<seq<nat>>
    /** `using_k`: the active dish ids, sentinel 0 first. */
    var activeDishes: seq<nat>
    /** `k_jt`: the dish served at each table slot of each document. */
    var tableDish: seq<seq<nat>>
    /** `n_jt`: the number of tokens at each table slot. */
    var tableSize: seq<seq<nat>>
    /** `n_jtv`: the number of tokens per word at each table slot. */
    var tableWords: seq<seq<map<nat, nat>>>
    /** `m_k`: the number of tables serving each dish slot. */
    var dishTables: seq<nat>
    /** `n_k`: `beta * V` plus the number of tokens eating each dish (a float in the source). */
    var dishTotal: seq<real>
    /** `n_kv`: per dish slot, the 64-bit word counters. */
    var dishWords: seq<map<nat, nat>>
    /** `t_ji`: the table of each token (0 when never seated). */
    var tokenTable: seq<seq<nat>>
    /** `m`: the number of active tables over all documents. */
    var totalTables: nat

    /** The fields as one value. */
    ghost function Snapshot(): Books
      reads this
    {
      Books(V, M, beta, words, activeTables, activeDishes, tableDish, tableSize, tableWords,
            dishTables, dishTotal, dishWords, tokenTable, totalTables)
    }

    /** Shapes and bounds: every active id indexes its arrays. */
    ghost predicate Valid()
      reads this
    {
      WellShaped(Snapshot())
    }

    /**
     * `state(def, alpha, beta, gamma, docs)`: every document has only the
     * sentinel table, the only dish is the sentinel (with `m_k[0] == 1` and
     * `n_k[0] == beta * V`), no table is counted and no token is seated; the
     * counters are consistent with that seating.
     */
    constructor (def: ModelDefinition, alpha: real, beta: real, gamma: real, docs: seq<seq<nat>>)
      ensures Snapshot() == Initial(def.v, def.n, beta, docs)
      ensures this.alpha == alpha && this.gamma == gamma
      ensures Consistent(Snapshot()) && Tallied(Snapshot(), tokenTable)
    {
      V := def.v;
      M := def.n;
      this.alpha := alpha;
      this.beta := beta;
      this.gamma := gamma;
      var tables: seq<seq<nat>> := [];
      for i := 0 to def.n
        invariant |tables| == i && forall j :: 0 <= j < i ==> tables[j] == [0]
      {
        tables := tables + [[0]];
      }
      words := docs;
      var dish: seq<seq<nat>> := [];
      var size: seq<seq<nat>> := [];
      var counts: seq<seq<map<nat, nat>>> := [];
      for j := 0 to def.n
        invariant |dish| == j && forall j' :: 0 <= j' < j ==> dish[j'] == [0]
        invariant |size| == j && forall j' :: 0 <= j' < j ==> size[j'] == [0]
        invariant |counts| == j && forall j' :: 0 <= j' < j ==> counts[j'] == [map[]]
      {
        dish := dish + [[0]];
        size := size + [[0]];
        var row: seq<map<nat, nat>> := [];
        for t := 0 to |tables[j]|
          invariant |row| == t && forall t' :: 0 <= t' < t ==> row[t'] == map[]
        {
          row := row + [map[]];
        }
        counts := counts + [row];
      }
      var termCount := ZeroFill(map[], def.v);
      var seating: seq<seq<nat>> := [];
      for j := 0 to |docs|
        invariant |seating| == j
        invariant forall j' :: 0 <= j' < j ==> seating[j'] == seq(|docs[j']|, _ => 0)
      {
        seating := seating + [seq(|docs[j]|, _ => 0)];
      }
      activeTables := tables;
      activeDishes := [0];
      tableDish := dish;
      tableSize := size;
      tableWords := counts;
      totalTables := 0;
      dishTables := [1];
      dishTotal := [beta * def.v as real];
      dishWords := [termCount];
      tokenTable := seating;
      ghost var b := Initial(def.v, def.n, beta, docs);
      assert tables == b.activeTables && dish == b.tableDish;
      assert size == b.tableSize && counts == b.tableWords;
      assert [termCount] == b.dishWords && seating == b.tokenTable;
      InitialConsistent(def.v, def.n, beta, docs);
      InitialTallied(def.v, def.n, beta, docs);
      new;
      assert activeTables == b.activeTables;
      assert tableDish == b.tableDish;
      assert dishTotal[0] == b.dishTotal[0] && |dishTotal| == |b.dishTotal|;
      assert dishWords == b.dishWords;
      assert tokenTable == b.tokenTable;
      assert Snapshot() == b;
    }

    /**
     * `usedDishes()`: the length of `using_k`, which is the number of
     * distinct active dish ids, the sentinel included.
     */
    function UsedDishes(): (r: nat)
      reads this
      requires IsRegistry(activeDishes)
      ensures r == |set k: nat | k in activeDishes|
      ensures r >= 1 && r - 1 == |set k: nat | k in activeDishes && k != 0|
    {
      AscendingCard(activeDishes);
      var ids := set k: nat | k in activeDishes;
      assert (set k: nat | k in activeDishes && k != 0) == ids - {0};
      assert activeDishes[0] in activeDishes;
      |activeDishes|
    }

    /**
     * `remove_table(j, t)`: table `t` leaves the active list of document `j`,
     * its dish loses a table, and the dish is dropped from the active dishes
     * when that was its last table.
     */
    method RemoveTable(j: nat, t: nat)
      requires CanRemoveTable(Snapshot(), j, t)
      modifies this`activeTables, this`dishTables, this`totalTables, this`activeDishes
      ensures Snapshot() == RemovedTable(old(Snapshot()), j, t)
    {
      ghost var r := RemovedTable(Snapshot(), j, t);
      var k := tableDish[j][t];
      var tables := RemoveFirst(activeTables[j], t);
      activeTables := activeTables[j := tables];
      var served: nat := dishTables[k] - 1;
      dishTables := dishTables[k := served];
      totalTables := totalTables - 1;
      if dishTables[k] == 0 {
        activeDishes := RemoveFirst(activeDishes, k);
      }
      assert activeTables == r.activeTables && dishTables == r.dishTables;
      assert activeDishes == r.activeDishes && totalTables == r.totalTables;
    }

    /**
     * `leave_from_table(j, i)`: nothing happens to a token that is not
     * seated. Otherwise its table and dish each lose one token of its word
     * (`n_jt`, `n_jtv`, `n_k`, `n_kv`), and the table is removed when its
     * count reaches 0; `t_ji` is not changed.
     */
    method LeaveFromTable(j: nat, i: nat)
      requires CanLeave(Snapshot(), j, i)
      modifies this`dishWords, this`dishTotal, this`tableSize, this`tableWords
      modifies this`activeTables, this`dishTables, this`totalTables, this`activeDishes
      ensures Snapshot() == LeftTable(old(Snapshot()), j, i)
    {
      var t := tokenTable[j][i];
      if t > 0 {
        var k := tableDish[j][t];
        var v := words[j][i];
        dishWords := dishWords[k := WrapDecrement(dishWords[k], v)];
        dishTotal := dishTotal[k := dishTotal[k] - 1.0];
        var sizes: seq<nat> := tableSize[j][t := tableSize[j][t] - 1];
        tableSize := tableSize[j := sizes];
        var counts: seq<map<nat, nat>> := tableWords[j][t := Drop(tableWords[j][t], v)];
        tableWords := tableWords[j := counts];
        assert Snapshot() == TokenLeft(old(Snapshot()), j, i);
        if tableSize[j][t] == 0 {
          RemoveTable(j, t);
        }
      }
    }

    /**
     * `seat_at_table(j, i, t)`: token `i` is seated at table `t`, and the
     * table's counters and its dish's counters each gain one token of its
     * word.
     */
    method SeatAtTable(j: nat, i: nat, t: nat)
      requires Token(Snapshot(), j, i) && t in activeTables[j]
      modifies this`tokenTable, this`tableSize, this`dishTotal, this`dishWords, this`tableWords
      ensures Snapshot() == SeatedAt(old(Snapshot()), j, i, t)
    {
      assert Tables.DocShape(activeTables[j], tableDish[j], tableSize[j], tableWords[j], |dishTables|);
      tokenTable := Reseat(tokenTable, j, i, t);
      var sizes: seq<nat> := tableSize[j][t := tableSize[j][t] + 1];
      tableSize := tableSize[j := sizes];
      var k := tableDish[j][t];
      dishTotal := dishTotal[k := dishTotal[k] + 1.0];
      var v := words[j][i];
      dishWords := dishWords[k := WrapIncrement(dishWords[k], v)];
      var counts: seq<map<nat, nat>> := tableWords[j][t := Bump(tableWords[j][t], v)];
      tableWords := tableWords[j := counts];
    }

    /**
     * `add_new_dish()`: takes the first position whose id differs from the
     * position (or the end of `using_k`), grows the dish arrays when that is
     * the end, inserts the id and resets its counters.
     */
    method AddNewDish() returns (k: nat)
      requires Valid()
      modifies this`activeDishes, this`dishTotal, this`dishTables, this`dishWords
      ensures (Snapshot(), k) == WithNewDish(old(Snapshot()))
    {
      ghost var r := WithNewDish(Snapshot());
      k := FirstGap(activeDishes);
      GapIsSmallestFree(activeDishes);
      RegistryLength(activeDishes, |dishTables|);
      assert activeDishes[0] in activeDishes;
      if k == |activeDishes| {
        dishTotal := dishTotal + [dishTotal[0]];
        dishTables := dishTables + [dishTables[0]];
        dishWords := dishWords + [map[]];
      }
      activeDishes := activeDishes[..k] + [k] + activeDishes[k..];
      dishTotal := dishTotal[k := beta * V as real];
      assert dishTotal[k] == r.0.dishTotal[k] && |dishTotal| == |r.0.dishTotal|;
      assert dishTotal == r.0.dishTotal;
      dishTables := dishTables[k := 0];
      var row := ZeroFill(dishWords[k], V);
      dishWords := dishWords[k := row];
      assert activeDishes == r.0.activeDishes && dishTables == r.0.dishTables && dishWords == r.0.dishWords;
    }

    /**
     * `add_new_table(j, k)`: takes the first position of `using_t[j]` whose
     * id differs from the position (or its end), grows the document's table
     * arrays when that is the end, inserts the id, resets its counters, gives
     * it dish `k`, and counts it for `k` and in the total.
     */
    method AddNewTable(j: nat, k: nat) returns (t: nat)
      requires Valid() && j < M && k in activeDishes
      modifies this`activeTables, this`tableSize, this`tableWords, this`tableDish
      modifies this`dishTables, this`totalTables
      ensures (Snapshot(), t) == WithNewTable(old(Snapshot()), j, k)
    {
      ghost var r := WithNewTable(Snapshot(), j, k);
      var ids := activeTables[j];
      assert Tables.DocShape(ids, tableDish[j], tableSize[j], tableWords[j], |dishTables|);
      t := FirstGap(ids);
      GapIsSmallestFree(ids);
      RegistryLength(ids, |tableSize[j]|);
      assert ids[0] in ids;
      var grown := t == |ids|;
      var sizes: seq<nat> := if grown then tableSize[j] + [0] else tableSize[j];
      var dishes: seq<nat> := if grown then tableDish[j] + [tableDish[j][0]] else tableDish[j];
      var counts: seq<map<nat, nat>> := if grown then tableWords[j] + [map[]] else tableWords[j];
      ids := ids[..t] + [t] + ids[t..];
      sizes := sizes[t := 0];
      var row := ZeroFill(counts[t], V);
      counts := counts[t := row];
      dishes := dishes[t := k];
      activeTables := activeTables[j := ids];
      tableSize := tableSize[j := sizes];
      tableWords := tableWords[j := counts];
      tableDish := tableDish[j := dishes];
      dishTables := dishTables[k := dishTables[k] + 1];
      totalTables := totalTables + 1;
    }

    /**
     * `sampling_t(j, i)`, with the two draws of `sample_discrete` given as
     * positions: the token leaves its table, `calc_f_k` reads its word in
     * every dish row, and the token joins the table at position
     * `tableIndex` of the document's active tables, or, when that is the
     * sentinel, a new table serving the dish at position `dishIndex` of the
     * active dishes (a new dish when that is the sentinel). From a
     * consistent state the result is consistent and the token is seated.
     */
    method SamplingT(j: nat, i: nat, tableIndex: nat, dishIndex: nat)
      requires CanLeave(Snapshot(), j, i)
      requires tableIndex < |LeftTable(Snapshot(), j, i).activeTables[j]|
      requires LeftTable(Snapshot(), j, i).activeTables[j][tableIndex] == 0 ==>
                 dishIndex < |LeftTable(Snapshot(), j, i).activeDishes|
      modifies this
      ensures Snapshot() == SampledTable(old(Snapshot()), j, i, tableIndex, dishIndex)
      ensures old(Consistent(Snapshot())) ==>
                Consistent(Snapshot()) && tokenTable[j][i] != 0 && tokenTable[j][i] in activeTables[j]
      ensures old(Consistent(Snapshot()) && Tallied(Snapshot(), tokenTable)) ==> Tallied(Snapshot(), tokenTable)
    {
      ghost var before := Snapshot();
      LeaveFromTable(j, i);
      CalcFk(words[j][i]);
      var t := activeTables[j][tableIndex];
      if t == 0 {
        var k := activeDishes[dishIndex];
        if k == 0 {
          k := AddNewDish();
        }
        t := AddNewTable(j, k);
      }
      SeatAtTable(j, i, t);
      if Consistent(before) {
        SampledTableKeeps(before, j, i, tableIndex, dishIndex);
        if Tallied(before, before.tokenTable) {
          SampledTableTallies(before, j, i, tableIndex, dishIndex);
        }
      }
    }

    /**
     * `leave_from_dish(j, t)`: the table's dish and the total lose a table;
     * when that was the dish's last table, the dish is dropped from the
     * active dishes and the table's dish is reset to the sentinel.
     */
    method LeaveFromDish(j: nat, t: nat)
      requires CanLeaveDish(Snapshot(), j, t)
      modifies this`dishTables, this`totalTables, this`activeDishes, this`tableDish
      ensures Snapshot() == LeftDish(old(Snapshot()), j, t)
    {
      ghost var r := LeftDish(Snapshot(), j, t);
      var k := tableDish[j][t];
      var served: nat := dishTables[k] - 1;
      dishTables := dishTables[k := served];
      totalTables := totalTables - 1;
      if dishTables[k] == 0 {
        activeDishes := RemoveFirst(activeDishes, k);
        var dishes: seq<nat> := tableDish[j][t := 0];
        tableDish := tableDish[j := dishes];
      }
      assert dishTables == r.dishTables && totalTables == r.totalTables;
      assert activeDishes == r.activeDishes && tableDish == r.tableDish;
    }

    /**
     * The state change of `calc_f_k(v)`: its loop over every dish slot reads
     * `n_kv[k][v]`, which inserts `v` with count 0 into each row that lacks
     * it. The ratios it returns are not part of this model.
     */
    method CalcFk(v: nat)
      modifies this`dishWords
      ensures Snapshot() == WordRead(old(Snapshot()), v)
    {
      var k := 0;
      while k < |dishWords|
        invariant k <= |dishWords| == |old(dishWords)|
        invariant forall x :: 0 <= x < k ==> dishWords[x] == Touch(old(dishWords)[x], v)
        invariant forall x :: k <= x < |dishWords| ==> dishWords[x] == old(dishWords)[x]
      {
        dishWords := dishWords[k := Touch(dishWords[k], v)];
        k := k + 1;
      }
      assert dishWords == WordRead(old(Snapshot()), v).dishWords;
    }

    /**
     * The state change of `calc_dish_posterior_t(j, t)`: `n_k` of the
     * table's current dish loses the table's size. The probabilities it
     * returns are not part of this model.
     */
    method CalcDishPosteriorT(j: nat, t: nat)
      requires Valid() && j < M && t < |tableSize[j]|
      modifies this`dishTotal
      ensures Snapshot() == DishPosteriorEffect(old(Snapshot()), j, t)
    {
      assert Tables.DocShape(activeTables[j], tableDish[j], tableSize[j], tableWords[j], |dishTables|);
      var kOld := tableDish[j][t];
      var size := tableSize[j][t];
      dishTotal := dishTotal[kOld := dishTotal[kOld] - size as real];
    }

    /**
     * `seat_at_dish(j, t, k)`: dish `k` and the total gain a table; only when
     * `k` is the table's own dish are the token counts moved, through the
     * transfer loop over the table's word counts.
     */
    method SeatAtDish(j: nat, t: nat, k: nat)
      requires Valid() && j < M && t < |tableDish[j]| && k in activeDishes
      modifies this`totalTables, this`dishTables, this`tableDish, this`dishTotal, this`dishWords
      ensures Snapshot() == SeatedAtDish(old(Snapshot()), j, t, k)
    {
      ghost var r := SeatedAtDish(Snapshot(), j, t, k);
      assert Tables.DocShape(activeTables[j], tableDish[j], tableSize[j], tableWords[j], |dishTables|);
      totalTables := totalTables + 1;
      dishTables := dishTables[k := dishTables[k] + 1];
      var kOld := tableDish[j][t];
      if k == kOld {
        var dishes: seq<nat> := tableDish[j][t := k];
        tableDish := tableDish[j := dishes];
        var n := tableSize[j][t] as real;
        var totals := dishTotal;
        if kOld != 0 {
          totals := totals[kOld := totals[kOld] - n];
        }
        totals := totals[k := totals[k] + n];
        assert totals == r.dishTotal;
        dishTotal := totals;
        var row := MoveCounts(dishWords[k], tableWords[j][t], kOld != 0);
        dishWords := dishWords[k := row];
      }
      assert totalTables == r.totalTables && dishTables == r.dishTables && tableDish == r.tableDish;
      assert dishWords == r.dishWords;
    }

    /**
     * `sampling_k(j, t)`, with the draw of `sample_discrete` given as a
     * position: the table leaves its dish, the posterior's side effect is
     * applied, and the table joins the dish at position `dishIndex` of the
     * active dishes (a new dish when that is the sentinel). The table total
     * and the seating are kept consistent.
     */
    method SamplingK(j: nat, t: nat, dishIndex: nat)
      requires CanLeaveDish(Snapshot(), j, t) && t != 0
      requires dishIndex < |LeftDish(Snapshot(), j, t).activeDishes|
      modifies this
      ensures Snapshot() == SampledDish(old(Snapshot()), j, t, dishIndex)
      ensures old(Count(Snapshot(), 0)) ==> Count(Snapshot(), 0) && totalTables == old(totalTables)
      ensures old(Seating(Snapshot(), tokenTable, 0, 0) && Sums(Snapshot())) ==>
                Seating(Snapshot(), tokenTable, 0, 0) && Sums(Snapshot())
    {
      ghost var before := Snapshot();
      LeaveFromDish(j, t);
      CalcDishPosteriorT(j, t);
      ghost var posterior := Snapshot();
      var k := activeDishes[dishIndex];
      if k == 0 {
        k := AddNewDish();
      }
      assert (Snapshot(), k) == DishFor(posterior, dishIndex);
      SeatAtDish(j, t, k);
      assert Snapshot() == JoinedDish(posterior, j, t, dishIndex);
      if Count(before, 0) {
        SampledDishKeeps(before, j, t, dishIndex);
      }
      if Seating(before, before.tokenTable, 0, 0) && Sums(before) {
        SameTablesKeep(before, Snapshot(), tokenTable);
      }
    }
  }
}
