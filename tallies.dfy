/**
 * The dish counters `n_kv` and `n_k` against the seating: for every active
 * dish other than the sentinel, `n_kv[k][v]` holds, modulo 2^64, the number
 * of tokens of word `v` eating `k`, and `n_k[k]` holds `beta * V` plus the
 * number of tokens eating `k`. Each move of `sampling_t` keeps this, so the
 * whole step does.
 */
module Tallies {
  import opened Registry
  import opened Tally
  import opened Tables
  import opened Dishes
  import opened Eating
  import opened Transfer
  import opened Bookkeeping
  import opened Preservation
  import SizeT

  /** Tokens of the seating `ts` eating dish `k`, of the words `w` takes, over the documents of `b`. */
  function Eaters(b: Books, ts: seq<seq<nat>>, k: nat, w: Words): nat
  {
    CorpusEating(ts, b.words, b.tableDish, k, w, |b.words|)
  }

  /** `n_k[k]` and `n_kv[k][v]` (for `v < V`) count the tokens of the seating `ts` eating `k`. */
  predicate DishTallied(b: Books, ts: seq<seq<nat>>, k: nat)
  {
    k < |b.dishTotal| && k < |b.dishWords| &&
    b.dishTotal[k] == b.beta * b.V as real + Eaters(b, ts, k, Every) as real &&
    forall v: nat :: v < b.V ==> Get(b.dishWords[k], v) == Eaters(b, ts, k, Only(v)) % SizeT.MODULUS
  }

  /** Every active dish other than the sentinel has its token counters in step with the seating `ts`. */
  predicate Tallied(b: Books, ts: seq<seq<nat>>)
  {
    forall k :: k in b.activeDishes && k != 0 ==> DishTallied(b, ts, k)
  }

  /** A dish whose counters, table dishes and corpus a step keeps stays in step with the seating. */
  lemma DishKept(b: Books, r: Books, ts: seq<seq<nat>>, k: nat)
    requires DishTallied(b, ts, k)
    requires r.V == b.V && r.beta == b.beta && r.words == b.words && r.tableDish == b.tableDish
    requires k < |r.dishTotal| && k < |r.dishWords|
    requires r.dishTotal[k] == b.dishTotal[k] && r.dishWords[k] == b.dishWords[k]
    ensures DishTallied(r, ts, k)
  {
    assert forall w :: Eaters(r, ts, k, w) == Eaters(b, ts, k, w);
  }

  /** A dish whose counters a step keeps, and whose eaters it keeps under the seating `us`, stays in step. */
  lemma DishRecounted(b: Books, r: Books, ts: seq<seq<nat>>, us: seq<seq<nat>>, k: nat)
    requires DishTallied(b, ts, k) && r.V == b.V && r.beta == b.beta
    requires k < |r.dishTotal| && k < |r.dishWords|
    requires r.dishTotal[k] == b.dishTotal[k] && r.dishWords[k] == b.dishWords[k]
    requires forall w :: Eaters(r, us, k, w) == Eaters(b, ts, k, w)
    ensures DishTallied(r, us, k)
  {
  }

  /** A step that keeps the dish counters and table dishes, and drops active dishes only, keeps them in step. */
  lemma TalliedFrame(b: Books, r: Books, ts: seq<seq<nat>>)
    requires Tallied(b, ts)
    requires r.V == b.V && r.beta == b.beta && r.words == b.words && r.tableDish == b.tableDish
    requires r.dishTotal == b.dishTotal && r.dishWords == b.dishWords
    requires forall k :: k in r.activeDishes ==> k in b.activeDishes
    ensures Tallied(r, ts)
  {
    forall k | k in r.activeDishes && k != 0
      ensures DishTallied(r, ts, k)
    {
      assert DishTallied(b, ts, k);
    }
  }

  /**
   * The constructor's state: the sentinel is the only active dish, so there
   * is nothing to count.
   */
  lemma InitialTallied(V: nat, M: nat, beta: real, docs: seq<seq<nat>>)
    ensures Tallied(Initial(V, M, beta, docs), Initial(V, M, beta, docs).tokenTable)
  {
    assert Initial(V, M, beta, docs).activeDishes == [0];
  }

  /**
   * A dish that gains one token of word `v`: `n_k` grows by one and
   * `n_kv[k][v]` by one modulo 2^64, in step with the seating `us`.
   */
  lemma DishGained(b: Books, r: Books, ts: seq<seq<nat>>, us: seq<seq<nat>>, k: nat, v: nat)
    requires DishTallied(b, ts, k) && r.V == b.V && r.beta == b.beta
    requires k < |r.dishTotal| && k < |r.dishWords|
    requires r.dishTotal[k] == b.dishTotal[k] + 1.0 && r.dishWords[k] == WrapIncrement(b.dishWords[k], v)
    requires forall w :: Eaters(r, us, k, w) == Eaters(b, ts, k, w) + (if w.Takes(v) then 1 else 0)
    ensures DishTallied(r, us, k)
  {
    forall x: nat | x < b.V
      ensures Get(r.dishWords[k], x) == Eaters(r, us, k, Only(x)) % SizeT.MODULUS
    {
      if x == v {
        AddOneMod(Eaters(b, ts, k, Only(x)));
      }
    }
    assert Eaters(r, us, k, Every) == Eaters(b, ts, k, Every) + 1;
  }

  /**
   * A dish that loses one token of word `v`: `n_k` drops by one and
   * `n_kv[k][v]` by one modulo 2^64, in step with the seating `us`.
   */
  lemma DishLost(b: Books, r: Books, ts: seq<seq<nat>>, us: seq<seq<nat>>, k: nat, v: nat)
    requires DishTallied(b, ts, k) && r.V == b.V && r.beta == b.beta
    requires k < |r.dishTotal| && k < |r.dishWords|
    requires r.dishTotal[k] == b.dishTotal[k] - 1.0 && r.dishWords[k] == WrapDecrement(b.dishWords[k], v)
    requires forall w :: Eaters(r, us, k, w) + (if w.Takes(v) then 1 else 0) == Eaters(b, ts, k, w)
    ensures DishTallied(r, us, k)
  {
    forall x: nat | x < b.V
      ensures Get(r.dishWords[k], x) == Eaters(r, us, k, Only(x)) % SizeT.MODULUS
    {
      if x == v {
        assert Eaters(r, us, k, Only(x)) + 1 == Eaters(b, ts, k, Only(x));
        SubOneMod(Eaters(b, ts, k, Only(x)));
      }
    }
    assert Eaters(r, us, k, Every) + 1 == Eaters(b, ts, k, Every);
  }

  /**
   * A seated token leaving its table: its dish's `n_k` and its word's
   * `n_kv` entry (a 64-bit decrement) each lose exactly that token, and the
   * counters agree with the seating in which the token is off every table.
   */
  lemma TokenLeftTallies(b: Books, j: nat, i: nat)
    requires CanLeave(b, j, i) && b.tokenTable[j][i] != 0 && Tallied(b, b.tokenTable)
    ensures Tallied(TokenLeft(b, j, i), Reseat(b.tokenTable, j, i, 0))
  {
    var ts := b.tokenTable;
    var us := Reseat(ts, j, i, 0);
    var r := TokenLeft(b, j, i);
    var t, v := ts[j][i], b.words[j][i];
    var kt := b.tableDish[j][t];
    assert b.tableDish[j := b.tableDish[j]] == b.tableDish;
    assert us == ts[j := ts[j][i := 0]];
    forall k, w
      ensures Eaters(r, us, k, w) + (if k == kt && w.Takes(v) then 1 else 0) == Eaters(b, ts, k, w)
    {
      DocEatingUpdate(ts[j], b.words[j], b.tableDish[j], k, w, i, 0);
      CorpusEatingUpdate(ts, b.words, b.tableDish, k, w, |b.words|, j, ts[j][i := 0], b.tableDish[j]);
    }
    forall k | k in r.activeDishes && k != 0
      ensures DishTallied(r, us, k)
    {
      assert DishTallied(b, ts, k);
      if k == kt {
        DishLost(b, r, ts, us, k, v);
      } else {
        DishRecounted(b, r, ts, us, k);
      }
    }
  }

  /**
   * `leave_from_table` on any token it may run on: the dish counters agree
   * with the seating in which the token is off every table.
   */
  lemma LeftTableTallies(b: Books, j: nat, i: nat)
    requires CanLeave(b, j, i) && Tallied(b, b.tokenTable)
    ensures Tallied(LeftTable(b, j, i), Reseat(b.tokenTable, j, i, 0))
  {
    var t := b.tokenTable[j][i];
    var us := Reseat(b.tokenTable, j, i, 0);
    if t == 0 {
      assert b.tokenTable[j][i := 0] == b.tokenTable[j];
      assert us == b.tokenTable;
    } else {
      TokenLeftTallies(b, j, i);
      var b1 := TokenLeft(b, j, i);
      if b1.tableSize[j][t] == 0 {
        RemoveId(b1.activeDishes, b1.tableDish[j][t]);
        TalliedFrame(b1, RemovedTable(b1, j, t), us);
      }
    }
  }

  /**
   * `seat_at_table` for a token off every table in the seating `ts`: the
   * table's dish gains exactly that token in `n_k` and in its word's `n_kv`
   * entry (a 64-bit increment), in step with the seating that has it there.
   */
  lemma SeatedAtTallies(b: Books, j: nat, i: nat, t: nat, ts: seq<seq<nat>>)
    requires Token(b, j, i) && t in b.activeTables[j] && t != 0
    requires |ts| == |b.words| && |ts[j]| == |b.words[j]| && ts[j][i] == 0 && Tallied(b, ts)
    ensures Tallied(SeatedAt(b, j, i, t), Reseat(ts, j, i, t))
  {
    assert DocShape(b.activeTables[j], b.tableDish[j], b.tableSize[j], b.tableWords[j], |b.dishTables|);
    var us := Reseat(ts, j, i, t);
    var r := SeatedAt(b, j, i, t);
    var v := b.words[j][i];
    var kt := b.tableDish[j][t];
    assert b.tableDish[j := b.tableDish[j]] == b.tableDish;
    var row: seq<nat> := ts[j][i := t];
    assert us == ts[j := row];
    forall k, w
      ensures Eaters(r, us, k, w) == Eaters(b, ts, k, w) + (if k == kt && w.Takes(v) then 1 else 0)
    {
      DocEatingUpdate(ts[j], b.words[j], b.tableDish[j], k, w, i, t);
      CorpusEatingUpdate(ts, b.words, b.tableDish, k, w, |b.words|, j, row, b.tableDish[j]);
    }
    forall k | k in r.activeDishes && k != 0
      ensures DishTallied(r, us, k)
    {
      assert DishTallied(b, ts, k);
      if k == kt {
        DishGained(b, r, ts, us, k, v);
      } else {
        DishRecounted(b, r, ts, us, k);
      }
    }
  }

  /**
   * No seated token eats a dish that is not active: every seated token sits
   * at an active table, and every active table serves an active dish.
   */
  lemma InactiveUneaten(b: Books, ts: seq<seq<nat>>, g: nat, w: Words)
    requires WellShaped(b) && Seating(b, ts, 0, 0) && Served(b) && g !in b.activeDishes
    ensures Eaters(b, ts, g, w) == 0
  {
    forall j, i | 0 <= j < |b.words| && j < |ts| && j < |b.tableDish| && 0 <= i < |ts[j]| && ts[j][i] != 0
      ensures DishOf(b.tableDish[j], ts[j][i]) != g
    {
      assert Seated(ts[j], b.words[j], b.activeTables[j], b.tableSize[j], b.tableWords[j], 0);
    }
    CorpusEatingNone(ts, b.words, b.tableDish, g, w, |b.words|);
  }

  /**
   * `add_new_dish` with the counters in step with a seating: no seated token
   * eats the new dish, and its slot is reset to `beta * V` and zero word
   * counters below `V`.
   */
  lemma WithNewDishTallies(b: Books, ts: seq<seq<nat>>)
    requires WellShaped(b) && Seating(b, ts, 0, 0) && Served(b) && Tallied(b, ts)
    ensures Tallied(WithNewDish(b).0, ts)
  {
    var r, g := WithNewDish(b).0, WithNewDish(b).1;
    WithNewDishShape(b);
    InactiveUneaten(b, ts, g, Every);
    forall v: nat | v < b.V
      ensures Eaters(b, ts, g, Only(v)) == 0
    {
      InactiveUneaten(b, ts, g, Only(v));
    }
    forall k | k in r.activeDishes && k != 0
      ensures DishTallied(r, ts, k)
    {
      if k != g {
        assert k in b.activeDishes by {
          GapIsSmallestFree(b.activeDishes);
          InsertGap(b.activeDishes, g);
        }
        DishKept(b, r, ts, k);
      }
    }
  }

  /**
   * `add_new_table` with the counters in step with a seating: the new table
   * has no token and every other table keeps its dish, so every count of
   * tokens eating a dish is kept, and so are the dish counters.
   */
  lemma WithNewTableTallies(b: Books, j: nat, k: nat, ts: seq<seq<nat>>)
    requires WellShaped(b) && j < b.M && k in b.activeDishes && Seating(b, ts, 0, 0) && Tallied(b, ts)
    ensures Tallied(WithNewTable(b, j, k).0, ts)
  {
    var r := WithNewTable(b, j, k).0;
    WithNewTableShape(b, j, k);
    forall k', w
      ensures Eaters(r, ts, k', w) == Eaters(b, ts, k', w)
    {
      if j < |b.words| {
        assert Seated(ts[j], b.words[j], b.activeTables[j], b.tableSize[j], b.tableWords[j], 0);
        DocEatingFrame(ts[j], b.words[j], b.tableDish[j], r.tableDish[j], k', w);
        CorpusEatingUpdate(ts, b.words, b.tableDish, k', w, |b.words|, j, ts[j], r.tableDish[j]);
        assert ts[j := ts[j]] == ts;
      } else {
        CorpusEatingAgree(ts, ts, b.words, b.tableDish, r.tableDish, k', w, |b.words|);
      }
    }
    forall k' | k' in r.activeDishes && k' != 0
      ensures DishTallied(r, ts, k')
    {
      assert DishTallied(b, ts, k');
      DishRecounted(b, r, ts, ts, k');
    }
  }

  /**
   * The reads of `calc_f_k` insert zero entries only, so the dish counters
   * stay in step with the seating.
   */
  lemma WordReadTallies(b: Books, v: nat, ts: seq<seq<nat>>)
    requires Tallied(b, ts)
    ensures Tallied(WordRead(b, v), ts)
  {
    var r := WordRead(b, v);
    forall k | k in r.activeDishes && k != 0
      ensures DishTallied(r, ts, k)
    {
      assert DishTallied(b, ts, k);
      assert forall w :: Eaters(r, ts, k, w) == Eaters(b, ts, k, w);
    }
  }

  /** Reseating a token twice leaves it where the second move put it. */
  lemma ReseatTwice(ts: seq<seq<nat>>, j: nat, i: nat, a: nat, c: nat)
    requires j < |ts| && i < |ts[j]|
    ensures Reseat(Reseat(ts, j, i, a), j, i, c) == Reseat(ts, j, i, c)
  {
    var once := Reseat(ts, j, i, a);
    assert once[j][i := c] == ts[j][i := c];
  }

  /**
   * The new-table branch of `sampling_t`, for a token off every table, with
   * the counters in step with that seating: they are in step with the
   * seating that has the token at the new table.
   */
  lemma SeatedAtNewTableTallies(b: Books, j: nat, i: nat, dishIndex: nat)
    requires Token(b, j, i) && dishIndex < |b.activeDishes|
    requires Seating(b, Reseat(b.tokenTable, j, i, 0), 0, 0) && Sums(b) && Served(b)
    requires Tallied(b, Reseat(b.tokenTable, j, i, 0))
    ensures var r := SeatedAtNewTable(b, j, i, dishIndex);
            Tallied(r, r.tokenTable)
  {
    var us := Reseat(b.tokenTable, j, i, 0);
    var d := DishFor(b, dishIndex);
    if b.activeDishes[dishIndex] == 0 {
      WithNewDishTallies(b, us);
    }
    SameTablesKeep(b, d.0, us);
    WithNewTableTallies(d.0, j, d.1, us);
    var o := OpenedFor(b, j, dishIndex);
    SeatedAtTallies(o.0, j, i, o.1, us);
    ReseatTwice(b.tokenTable, j, i, 0, o.1);
  }

  /**
   * `sampling_t` on a consistent state whose dish counters are in step with
   * its seating, whatever positions are sampled: the dish counters are in
   * step with the new seating.
   */
  lemma SampledTableTallies(b: Books, j: nat, i: nat, tableIndex: nat, dishIndex: nat)
    requires Consistent(b) && Token(b, j, i) && CanLeave(b, j, i) && Tallied(b, b.tokenTable)
    requires tableIndex < |LeftTable(b, j, i).activeTables[j]|
    requires LeftTable(b, j, i).activeTables[j][tableIndex] == 0 ==>
               dishIndex < |LeftTable(b, j, i).activeDishes|
    ensures var r := SampledTable(b, j, i, tableIndex, dishIndex);
            Tallied(r, r.tokenTable)
  {
    LeftTableKeeps(b, j, i);
    LeftTableTallies(b, j, i);
    WordReadTallies(LeftTable(b, j, i), b.words[j][i], Reseat(b.tokenTable, j, i, 0));
    var left := WordRead(LeftTable(b, j, i), b.words[j][i]);
    var chosen := left.activeTables[j][tableIndex];
    if chosen != 0 {
      SeatedAtTallies(left, j, i, chosen, Reseat(b.tokenTable, j, i, 0));
      ReseatTwice(b.tokenTable, j, i, 0, chosen);
    } else {
      SeatedAtNewTableTallies(left, j, i, dishIndex);
    }
  }
}
