/**
 * The sampler's state as a value, and each of its operations as a function
 * from the state before to the state after. The class in the Franchise
 * module updates its fields in place and is proved to follow these
 * functions; what the operations keep is proved here, about the values.
 */
module Bookkeeping {
  import opened Vectors
  import opened Registry
  import opened Tally
  import opened Tables
  import opened Dishes
  import opened Transfer

  /**
   * The corpus and its constants (`V`, `M`, `beta`, `x_ji`), then the
   * counters the sampling steps move: `using_t`, `using_k`, `k_jt`, `n_jt`,
   * `n_jtv`, `m_k`, `n_k`, `n_kv`, `t_ji` and `m`.
   */
  datatype Books = Books(
    V: nat, M: nat, beta: real, words: seq<seq<nat>>,
    activeTables: seq<seq<nat>>, activeDishes: seq<nat>,
    tableDish: seq<seq<nat>>, tableSize: seq<seq<nat>>, tableWords: seq<seq<map<nat, nat>>>,
    dishTables: seq<nat>, dishTotal: seq<real>, dishWords: seq<map<nat, nat>>,
    tokenTable: seq<seq<nat>>, totalTables: nat)

  // ---------------------------------------------------------------------
  // Invariants

  /** Shapes and bounds: every active id indexes the arrays it is used with. */
  predicate WellShaped(b: Books)
  {
    |b.activeTables| == b.M && |b.tableDish| == b.M && |b.tableSize| == b.M && |b.tableWords| == b.M &&
    |b.tokenTable| == |b.words| &&
    (forall j :: 0 <= j < |b.words| ==> |b.tokenTable[j]| == |b.words[j]|) &&
    |b.dishTotal| == |b.dishTables| && |b.dishWords| == |b.dishTables| &&
    IsRegistry(b.activeDishes) && (forall k :: k in b.activeDishes ==> k < |b.dishTables|) &&
    (forall j :: 0 <= j < b.M ==>
       DocShape(b.activeTables[j], b.tableDish[j], b.tableSize[j], b.tableWords[j], |b.dishTables|))
  }

  /** The corpus and its constants are those of `b`. */
  predicate SameCorpus(b: Books, r: Books)
  {
    r.V == b.V && r.M == b.M && r.beta == b.beta && r.words == b.words
  }

  /**
   * The table counters agree with the seating `ts` in every document; the
   * table `et` of document `ej` may be active without tokens.
   */
  ghost predicate Seating(b: Books, ts: seq<seq<nat>>, ej: nat, et: nat)
  {
    |ts| == |b.words| && |b.activeTables| == b.M && |b.tableSize| == b.M && |b.tableWords| == b.M &&
    forall j :: 0 <= j < b.M && j < |b.words| ==>
      Seated(ts[j], b.words[j], b.activeTables[j], b.tableSize[j], b.tableWords[j], if j == ej then et else 0)
  }

  /** `n_jt[j][t]` is the sum over words of `n_jtv[j][t]`, for every table slot. */
  ghost predicate Sums(b: Books)
  {
    |b.tableSize| == b.M && |b.tableWords| == b.M &&
    forall j :: 0 <= j < b.M ==> TableSums(b.tableSize[j], b.tableWords[j])
  }

  /** Active tables serve active dishes, and `m_k[k]` counts the tables serving `k`. */
  predicate Served(b: Books)
  {
    DishTables(b.activeTables, b.tableDish, b.activeDishes, b.dishTables)
  }

  /** `m` is the sum of `m_k` over the active dishes; only `exempt` may have no table. */
  predicate Count(b: Books, exempt: nat)
  {
    TableCount(b.activeDishes, b.dishTables, b.totalTables, exempt)
  }

  /** The state between two sampling steps. */
  ghost predicate Consistent(b: Books)
  {
    WellShaped(b) && Seating(b, b.tokenTable, 0, 0) && Sums(b) && Served(b) && Count(b, 0)
  }

  // ---------------------------------------------------------------------
  // Operations

  /**
   * The state the constructor builds: each document has only its sentinel
   * table (with no tokens, dish 0 and an empty word map), the sentinel dish
   * counts one table and `beta * V` tokens, its word counters below `V` are
   * 0, no table is counted and no token is seated.
   */
  function Initial(V: nat, M: nat, beta: real, docs: seq<seq<nat>>): (r: Books)
    ensures WellShaped(r) && r.V == V && r.M == M && r.beta == beta && r.words == docs
    ensures r.activeDishes == [0] && r.dishTables == [1] && r.totalTables == 0
    ensures r.dishTotal == [beta * V as real] && forall v: nat :: v < V ==> Get(r.dishWords[0], v) == 0
    ensures forall j :: 0 <= j < M ==> r.activeTables[j] == [0] && r.tableSize[j] == [0]
    ensures forall j, i :: 0 <= j < |docs| && 0 <= i < |docs[j]| ==> r.tokenTable[j][i] == 0
  {
    Books(V, M, beta, docs,
          seq(M, _ => [0]), [0],
          seq(M, _ => [0]), seq(M, _ => [0]), seq(M, _ => [map[]]),
          [1], [beta * V as real], [Zeroed(map[], V)],
          seq(|docs|, j requires 0 <= j < |docs| => seq(|docs[j]|, _ => 0)), 0)
  }

  /** Token `i` of document `j` exists, in a state of the right shape. */
  predicate Token(b: Books, j: nat, i: nat)
  {
    WellShaped(b) && j < b.M && j < |b.words| && i < |b.words[j]|
  }

  /** The seating `ts` with token `i` of document `j` at table `t` (0: off every table). */
  function Reseat(ts: seq<seq<nat>>, j: nat, i: nat, t: nat): (r: seq<seq<nat>>)
    requires j < |ts| && i < |ts[j]|
    ensures |r| == |ts| && |r[j]| == |ts[j]| && r[j][i] == t
    ensures forall j' :: 0 <= j' < |ts| && j' != j ==> r[j'] == ts[j']
    ensures forall i' :: 0 <= i' < |ts[j]| && i' != i ==> r[j][i'] == ts[j][i']
  {
    var row: seq<nat> := ts[j][i := t];
    ts[j := row]
  }

  /**
   * `remove_table` may run: `t` is an active table of document `j`, it
   * serves a dish other than the sentinel, and the counters it decrements
   * are not 0.
   */
  predicate CanRemoveTable(b: Books, j: nat, t: nat)
  {
    WellShaped(b) && j < b.M && t in b.activeTables[j] && t != 0 && t < |b.tableDish[j]| &&
    b.tableDish[j][t] != 0 && b.tableDish[j][t] < |b.dishTables| &&
    b.dishTables[b.tableDish[j][t]] >= 1 && b.totalTables >= 1
  }

  /**
   * `remove_table(j, t)`: the table leaves the active list of its document,
   * its dish loses a table and so does the total; the dish leaves the active
   * dishes when that was its last table.
   */
  function RemovedTable(b: Books, j: nat, t: nat): (r: Books)
    requires CanRemoveTable(b, j, t)
    ensures WellShaped(r) && SameCorpus(b, r)
    ensures r.tableDish == b.tableDish && r.tableSize == b.tableSize && r.tableWords == b.tableWords
    ensures r.tokenTable == b.tokenTable && r.dishTotal == b.dishTotal && r.dishWords == b.dishWords
  {
    var k := b.tableDish[j][t];
    var mk := b.dishTables[k := b.dishTables[k] - 1];
    RemoveId(b.activeTables[j], t);
    RemoveId(b.activeDishes, k);
    b.(activeTables := b.activeTables[j := Without(b.activeTables[j], t)],
       dishTables := mk,
       totalTables := b.totalTables - 1,
       activeDishes := if mk[k] == 0 then Without(b.activeDishes, k) else b.activeDishes)
  }

  /**
   * `leave_from_table` may run on token `i` of document `j`: if the token
   * is seated, its table is active, serves a dish other than the sentinel,
   * and each counter it decrements is not 0.
   */
  predicate CanLeave(b: Books, j: nat, i: nat)
  {
    Token(b, j, i) &&
    var t := b.tokenTable[j][i];
    t != 0 ==>
      t in b.activeTables[j] && t < |b.tableSize[j]| && t < |b.tableDish[j]| &&
      b.tableSize[j][t] >= 1 && Get(b.tableWords[j][t], b.words[j][i]) >= 1 &&
      b.tableDish[j][t] != 0 && b.tableDish[j][t] < |b.dishTables| &&
      b.dishTables[b.tableDish[j][t]] >= 1 && b.totalTables >= 1
  }

  /**
   * The first half of `leave_from_table(j, i)` for a seated token: one token
   * of its word leaves its table's and its dish's counters.
   */
  function TokenLeft(b: Books, j: nat, i: nat): (r: Books)
    requires CanLeave(b, j, i) && b.tokenTable[j][i] != 0
    ensures WellShaped(r) && SameCorpus(b, r)
    ensures r.activeTables == b.activeTables && r.activeDishes == b.activeDishes
    ensures r.tableDish == b.tableDish && r.dishTables == b.dishTables
    ensures r.tokenTable == b.tokenTable && r.totalTables == b.totalTables
  {
    var t := b.tokenTable[j][i];
    var k, v := b.tableDish[j][t], b.words[j][i];
    var nj: seq<nat> := b.tableSize[j][t := b.tableSize[j][t] - 1];
    var nv: seq<map<nat, nat>> := b.tableWords[j][t := Drop(b.tableWords[j][t], v)];
    b.(dishWords := b.dishWords[k := WrapDecrement(b.dishWords[k], v)],
       dishTotal := b.dishTotal[k := b.dishTotal[k] - 1.0],
       tableSize := b.tableSize[j := nj],
       tableWords := b.tableWords[j := nv])
  }

  /**
   * `leave_from_table(j, i)`: nothing for a token that is not seated;
   * otherwise the token leaves its table's and dish's counters, and the
   * table is removed when its count reaches 0. The token's entry in `t_ji`
   * is left as it was.
   */
  function LeftTable(b: Books, j: nat, i: nat): (r: Books)
    requires CanLeave(b, j, i)
    ensures WellShaped(r) && SameCorpus(b, r)
    ensures r.tokenTable == b.tokenTable && r.tableDish == b.tableDish
  {
    var t := b.tokenTable[j][i];
    if t == 0 then b
    else
      var b1 := TokenLeft(b, j, i);
      if b1.tableSize[j][t] == 0 then RemovedTable(b1, j, t) else b1
  }

  /**
   * `seat_at_table(j, i, t)`: the token is seated at table `t`, and one
   * token of its word joins the table's and the table's dish's counters.
   */
  function SeatedAt(b: Books, j: nat, i: nat, t: nat): (r: Books)
    requires Token(b, j, i) && t in b.activeTables[j]
    ensures WellShaped(r) && SameCorpus(b, r)
    ensures r.activeTables == b.activeTables && r.activeDishes == b.activeDishes
    ensures r.tableDish == b.tableDish && r.dishTables == b.dishTables && r.totalTables == b.totalTables
    ensures r.tokenTable == Reseat(b.tokenTable, j, i, t)
  {
    assert DocShape(b.activeTables[j], b.tableDish[j], b.tableSize[j], b.tableWords[j], |b.dishTables|);
    var k, v := b.tableDish[j][t], b.words[j][i];
    var nj: seq<nat> := b.tableSize[j][t := b.tableSize[j][t] + 1];
    var nv: seq<map<nat, nat>> := b.tableWords[j][t := Bump(b.tableWords[j][t], v)];
    b.(tokenTable := Reseat(b.tokenTable, j, i, t),
       tableSize := b.tableSize[j := nj],
       dishTotal := b.dishTotal[k := b.dishTotal[k] + 1.0],
       dishWords := b.dishWords[k := WrapIncrement(b.dishWords[k], v)],
       tableWords := b.tableWords[j := nv])
  }

  /**
   * `add_new_dish()`: the smallest free dish id is inserted into the active
   * dishes at its own position, the dish arrays grow by one slot (a copy of
   * slot 0, or an empty word map) when the id equals the number of active
   * dishes, and the dish's slot is reset: no tables, `n_k` back to
   * `beta * V`, and every word counter below `V` set to 0.
   */
  function WithNewDish(b: Books): (r: (Books, nat))
    requires WellShaped(b)
    ensures WellShaped(r.0) && SameCorpus(b, r.0)
    ensures r.1 == Gap(b.activeDishes) && r.0.activeDishes == Inserted(b.activeDishes, r.1)
    ensures r.1 in r.0.activeDishes && r.1 != 0
    ensures r.0.activeTables == b.activeTables && r.0.tableDish == b.tableDish
    ensures r.0.tableSize == b.tableSize && r.0.tableWords == b.tableWords
    ensures r.0.tokenTable == b.tokenTable && r.0.totalTables == b.totalTables
  {
    var k := Gap(b.activeDishes);
    GapIsSmallestFree(b.activeDishes);
    RegistryLength(b.activeDishes, |b.dishTables|);
    InsertGap(b.activeDishes, k);
    var grown := k == |b.activeDishes|;
    var nk := if grown then b.dishTotal + [b.dishTotal[0]] else b.dishTotal;
    var mk := if grown then b.dishTables + [b.dishTables[0]] else b.dishTables;
    var nkv := if grown then b.dishWords + [map[]] else b.dishWords;
    (b.(activeDishes := Inserted(b.activeDishes, k),
        dishTotal := nk[k := b.beta * b.V as real],
        dishTables := mk[k := 0],
        dishWords := nkv[k := Zeroed(nkv[k], b.V)]),
     k)
  }

  /**
   * `add_new_table(j, k)`: the smallest free table id of document `j` is
   * inserted into its active tables at its own position, the document's
   * table arrays grow by one slot when the id equals the number of active
   * tables, and the table's slot is reset: no tokens, every word counter
   * below `V` set to 0, and dish `k`. Dish `k` and the total gain a table.
   */
  function WithNewTable(b: Books, j: nat, k: nat): (r: (Books, nat))
    requires WellShaped(b) && j < b.M && k in b.activeDishes
    ensures WellShaped(r.0) && SameCorpus(b, r.0)
    ensures r.1 == Gap(b.activeTables[j])
    ensures r.0.activeTables == b.activeTables[j := Inserted(b.activeTables[j], r.1)]
    ensures r.1 in r.0.activeTables[j] && r.1 != 0
    ensures r.0.activeDishes == b.activeDishes && r.0.tokenTable == b.tokenTable
    ensures r.0.dishTotal == b.dishTotal && r.0.dishWords == b.dishWords
  {
    var ut := b.activeTables[j];
    assert DocShape(ut, b.tableDish[j], b.tableSize[j], b.tableWords[j], |b.dishTables|);
    var t := Gap(ut);
    GapIsSmallestFree(ut);
    RegistryLength(ut, |b.tableSize[j]|);
    InsertGap(ut, t);
    var grown := t == |ut|;
    var nj: seq<nat> := if grown then b.tableSize[j] + [0] else b.tableSize[j];
    var kj: seq<nat> := if grown then b.tableDish[j] + [b.tableDish[j][0]] else b.tableDish[j];
    var nv: seq<map<nat, nat>> := if grown then b.tableWords[j] + [map[]] else b.tableWords[j];
    var nj': seq<nat> := nj[t := 0];
    var nv': seq<map<nat, nat>> := nv[t := Zeroed(nv[t], b.V)];
    var kj': seq<nat> := kj[t := k];
    (b.(activeTables := b.activeTables[j := Inserted(ut, t)],
        tableSize := b.tableSize[j := nj'],
        tableWords := b.tableWords[j := nv'],
        tableDish := b.tableDish[j := kj'],
        dishTables := b.dishTables[k := b.dishTables[k] + 1],
        totalTables := b.totalTables + 1),
     t)
  }

  /**
   * The dish a sampling step settles on: the dish at position `dishIndex` of
   * the active dishes, or a new dish when that is the sentinel. The second
   * component is the dish's id.
   */
  function DishFor(b: Books, dishIndex: nat): (r: (Books, nat))
    requires WellShaped(b) && dishIndex < |b.activeDishes|
    ensures WellShaped(r.0) && SameCorpus(b, r.0)
    ensures r.1 in r.0.activeDishes && r.1 != 0
    ensures r.0.activeTables == b.activeTables && r.0.tableDish == b.tableDish
    ensures r.0.tableSize == b.tableSize && r.0.tableWords == b.tableWords
    ensures r.0.tokenTable == b.tokenTable && r.0.totalTables == b.totalTables
  {
    var k := b.activeDishes[dishIndex];
    if k != 0 then (b, k) else WithNewDish(b)
  }

  /**
   * The tables opened in the new-table branch of `sampling_t`: a new table
   * of document `j` for the dish the step settles on. The second component
   * is the new table's id.
   */
  function OpenedFor(b: Books, j: nat, dishIndex: nat): (r: (Books, nat))
    requires WellShaped(b) && j < b.M && dishIndex < |b.activeDishes|
    ensures WellShaped(r.0) && SameCorpus(b, r.0)
    ensures r.1 == Gap(b.activeTables[j]) && r.1 in r.0.activeTables[j] && r.1 != 0
    ensures r.0.tokenTable == b.tokenTable
  {
    var withDish := DishFor(b, dishIndex);
    WithNewTable(withDish.0, j, withDish.1)
  }

  /**
   * The branch of `sampling_t` that opens a table: token `i` of document `j`
   * is seated at the table opened for the sampled dish.
   */
  function SeatedAtNewTable(b: Books, j: nat, i: nat, dishIndex: nat): (r: Books)
    requires Token(b, j, i) && dishIndex < |b.activeDishes|
    ensures WellShaped(r) && SameCorpus(b, r)
  {
    var withDish := OpenedFor(b, j, dishIndex);
    SeatedAt(withDish.0, j, i, withDish.1)
  }

  /**
   * The reads of `calc_f_k(v)`: `n_kv[k][v]` for every dish slot `k`, each
   * inserting `v` with count 0 into a row that lacks it. No count changes.
   */
  function WordRead(b: Books, v: nat): (r: Books)
    ensures r == b.(dishWords := r.dishWords) && |r.dishWords| == |b.dishWords|
    ensures forall k :: 0 <= k < |b.dishWords| ==> r.dishWords[k].Keys == b.dishWords[k].Keys + {v}
    ensures forall k, x :: 0 <= k < |b.dishWords| ==> Get(r.dishWords[k], x) == Get(b.dishWords[k], x)
  {
    b.(dishWords := seq(|b.dishWords|, k requires 0 <= k < |b.dishWords| => Touch(b.dishWords[k], v)))
  }

  /**
   * `sampling_t(j, i)` with the two sampled positions given: the token
   * leaves its table and `calc_f_k` reads its word in every dish row;
   * position `tableIndex` of the document's active tables is the table it
   * joins, and when that is the sentinel a new table is opened, serving the
   * dish at position `dishIndex` of the active dishes or, when that is the
   * sentinel too, a new dish.
   */
  function SampledTable(b: Books, j: nat, i: nat, tableIndex: nat, dishIndex: nat): (r: Books)
    requires CanLeave(b, j, i)
    requires tableIndex < |LeftTable(b, j, i).activeTables[j]|
    requires LeftTable(b, j, i).activeTables[j][tableIndex] == 0 ==>
               dishIndex < |LeftTable(b, j, i).activeDishes|
    ensures WellShaped(r) && SameCorpus(b, r)
  {
    var b1 := WordRead(LeftTable(b, j, i), b.words[j][i]);
    var t := b1.activeTables[j][tableIndex];
    if t != 0 then SeatedAt(b1, j, i, t) else SeatedAtNewTable(b1, j, i, dishIndex)
  }

  /**
   * `leave_from_dish` may run on table `t` of document `j`: its dish is
   * active, is not the sentinel, and the counters it decrements are not 0.
   */
  predicate CanLeaveDish(b: Books, j: nat, t: nat)
  {
    WellShaped(b) && j < b.M && t < |b.tableDish[j]| &&
    b.tableDish[j][t] in b.activeDishes && b.tableDish[j][t] != 0 &&
    b.dishTables[b.tableDish[j][t]] >= 1 && b.totalTables >= 1
  }

  /**
   * `leave_from_dish(j, t)`: the table's dish and the total lose a table;
   * when that was the dish's last table, the dish leaves the active dishes
   * and the table's dish is reset to the sentinel.
   */
  function LeftDish(b: Books, j: nat, t: nat): (r: Books)
    requires CanLeaveDish(b, j, t)
    ensures WellShaped(r) && SameCorpus(b, r)
    ensures r.activeTables == b.activeTables && r.tableSize == b.tableSize
    ensures r.tableWords == b.tableWords && r.tokenTable == b.tokenTable
    ensures r.dishTotal == b.dishTotal && r.dishWords == b.dishWords
    ensures |r.tableDish[j]| == |b.tableDish[j]|
  {
    var k := b.tableDish[j][t];
    var mk := b.dishTables[k := b.dishTables[k] - 1];
    RemoveId(b.activeDishes, k);
    var kj: seq<nat> := b.tableDish[j][t := 0];
    b.(dishTables := mk,
       totalTables := b.totalTables - 1,
       activeDishes := if mk[k] == 0 then Without(b.activeDishes, k) else b.activeDishes,
       tableDish := if mk[k] == 0 then b.tableDish[j := kj] else b.tableDish)
  }

  /**
   * The one change `calc_dish_posterior_t(j, t)` makes to the state: the
   * token count of the table's current dish drops by the table's size.
   */
  function DishPosteriorEffect(b: Books, j: nat, t: nat): (r: Books)
    requires WellShaped(b) && j < b.M && t < |b.tableSize[j]|
    ensures WellShaped(r) && SameCorpus(b, r)
    ensures r == b.(dishTotal := r.dishTotal)
  {
    assert DocShape(b.activeTables[j], b.tableDish[j], b.tableSize[j], b.tableWords[j], |b.dishTables|);
    var k := b.tableDish[j][t];
    b.(dishTotal := b.dishTotal[k := b.dishTotal[k] - b.tableSize[j][t] as real])
  }

  /**
   * `seat_at_dish(j, t, k)`: dish `k` and the total gain a table. Only when
   * `k` is the dish the table already has are the token counts moved: the
   * table's size comes off the old dish's `n_k` (unless that is the
   * sentinel) and onto `k`'s, and its word counts go through the transfer
   * loop, which keys the addition by the count.
   */
  ghost function SeatedAtDish(b: Books, j: nat, t: nat, k: nat): (r: Books)
    requires WellShaped(b) && j < b.M && t < |b.tableDish[j]| && k in b.activeDishes
    ensures WellShaped(r) && SameCorpus(b, r)
    ensures r.activeTables == b.activeTables && r.activeDishes == b.activeDishes
    ensures r.tableDish == b.tableDish && r.tableSize == b.tableSize
    ensures r.tableWords == b.tableWords && r.tokenTable == b.tokenTable
    ensures r.dishTables == b.dishTables[k := b.dishTables[k] + 1] && r.totalTables == b.totalTables + 1
  {
    assert DocShape(b.activeTables[j], b.tableDish[j], b.tableSize[j], b.tableWords[j], |b.dishTables|);
    var b1 := b.(totalTables := b.totalTables + 1, dishTables := b.dishTables[k := b.dishTables[k] + 1]);
    var old_k := b.tableDish[j][t];
    if k != old_k then b1
    else
      var n := b.tableSize[j][t] as real;
      var nk := if old_k != 0 then b.dishTotal[old_k := b.dishTotal[old_k] - n] else b.dishTotal;
      var kj: seq<nat> := b.tableDish[j][t := k];
      assert kj == b.tableDish[j];
      b1.(tableDish := b.tableDish[j := kj],
          dishTotal := nk[k := nk[k] + n],
          dishWords := b.dishWords[k := MoveRow(b.dishWords[k], b.tableWords[j][t], old_k != 0)])
  }

  /**
   * The second half of `sampling_k(j, t)`: the table joins the dish at
   * position `dishIndex` of the active dishes, or a new dish when that is
   * the sentinel.
   */
  ghost function JoinedDish(b: Books, j: nat, t: nat, dishIndex: nat): (r: Books)
    requires WellShaped(b) && j < b.M && t < |b.tableDish[j]| && dishIndex < |b.activeDishes|
    ensures WellShaped(r) && SameCorpus(b, r)
    ensures r.activeTables == b.activeTables && r.tableSize == b.tableSize
    ensures r.tableWords == b.tableWords && r.tokenTable == b.tokenTable
  {
    var withDish := DishFor(b, dishIndex);
    SeatedAtDish(withDish.0, j, t, withDish.1)
  }

  /**
   * `sampling_k(j, t)` with the sampled position given: the table leaves its
   * dish, the posterior's side effect is applied, and the table joins the
   * dish at position `dishIndex` of the active dishes, or a new dish when
   * that is the sentinel.
   */
  ghost function SampledDish(b: Books, j: nat, t: nat, dishIndex: nat): (r: Books)
    requires CanLeaveDish(b, j, t)
    requires dishIndex < |LeftDish(b, j, t).activeDishes|
    ensures WellShaped(r) && SameCorpus(b, r)
    ensures r.activeTables == b.activeTables && r.tableSize == b.tableSize
    ensures r.tableWords == b.tableWords && r.tokenTable == b.tokenTable
  {
    JoinedDish(DishPosteriorEffect(LeftDish(b, j, t), j, t), j, t, dishIndex)
  }
}
