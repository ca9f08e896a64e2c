/**
 * The word-count transfer of `seat_at_dish`: the entries `(w, c)` of a
 * table's word counts, visited in ascending key order (the iteration order
 * of a `std::map`), first take `c` off the dish row at key `w` (when the
 * table had a dish) and then add `c` at key `c` -- the count, not the word,
 * is the key of the addition. All arithmetic is on 64-bit `size_t` cells.
 */
module Transfer {
  import SizeT
  import opened Tally

  /** A set of naturals holding `x` has a least element: descend from `x`. */
  lemma {:induction false} MinBelow(s: set<nat>, x: nat)
    requires x in s
    ensures exists m :: m in s && forall y :: y in s ==> m <= y
    decreases x
  {
    if !forall y :: y in s ==> x <= y {
      var y :| y in s && y < x;
      MinBelow(s, y);
    }
  }

  /** A set of naturals that is not empty has a least element. */
  lemma MinExists(s: set<nat>)
    requires s != {}
    ensures exists m :: m in s && forall x :: x in s ==> m <= x
  {
    var x :| x in s;
    MinBelow(s, x);
  }

  /** The least key of a non-empty key set: the first entry a `std::map` visits. */
  ghost function MinKey(s: set<nat>): (m: nat)
    requires s != {}
    ensures m in s && forall x :: x in s ==> m <= x
  {
    MinExists(s);
    var m :| m in s && forall x :: x in s ==> m <= x;
    m
  }

  /** The entries of `table` whose keys are in `keys`. */
  function Restrict(table: map<nat, nat>, keys: set<nat>): (r: map<nat, nat>)
    ensures r.Keys == table.Keys * keys
    ensures forall w :: w in r ==> r[w] == table[w]
  {
    map w | w in table.Keys && w in keys :: table[w]
  }

  /** `row[v] -= 1` on a 64-bit counter (an absent entry reads as 0). */
  function WrapDecrement(row: map<nat, nat>, v: nat): (r: map<nat, nat>)
    ensures r.Keys == row.Keys + {v}
    ensures forall w :: w != v && w in row ==> r[w] == row[w]
  {
    row[v := SizeT.Sub(Get(row, v), 1)]
  }

  /** `row[v] += 1` on a 64-bit counter (an absent entry reads as 0). */
  function WrapIncrement(row: map<nat, nat>, v: nat): (r: map<nat, nat>)
    ensures r.Keys == row.Keys + {v}
    ensures forall w :: w != v && w in row ==> r[w] == row[w]
  {
    row[v := SizeT.Add(Get(row, v), 1)]
  }

  /** One step of the transfer: entry `(w, c)` applied to the dish row. */
  function MoveEntry(row: map<nat, nat>, w: nat, c: nat, drain: bool): map<nat, nat>
  {
    var drained := if drain then row[w := SizeT.Sub(Get(row, w), c)] else row;
    drained[c := SizeT.Add(Get(drained, c), c)]
  }

  /** The whole transfer of `table` into `row`, entries in ascending key order. */
  ghost function MoveRow(row: map<nat, nat>, table: map<nat, nat>, drain: bool): map<nat, nat>
    decreases |table.Keys|
  {
    if table.Keys == {} then row
    else
      var w := MinKey(table.Keys);
      assert |(table - {w}).Keys| < |table.Keys| by {
        assert (table - {w}).Keys == table.Keys - {w};
      }
      MoveRow(MoveEntry(row, w, table[w], drain), table - {w}, drain)
  }

  /** The transfer applies the entry with the least key first. */
  lemma MoveRowFirst(row: map<nat, nat>, table: map<nat, nat>, drain: bool, w: nat)
    requires w in table && forall x :: x in table ==> w <= x
    ensures MoveRow(row, table, drain) == MoveRow(MoveEntry(row, w, table[w], drain), table - {w}, drain)
  {
    assert MinKey(table.Keys) == w;
  }

  /** Taking a key out of the pending set takes its entry out of the restriction. */
  lemma RestrictLess(table: map<nat, nat>, keys: set<nat>, w: nat)
    ensures Restrict(table, keys) - {w} == Restrict(table, keys - {w})
  {
  }

  /**
   * The transfer loop of `seat_at_dish`: visits the table's entries in
   * ascending key order and applies each to the dish row in turn.
   */
  method MoveCounts(row: map<nat, nat>, table: map<nat, nat>, drain: bool) returns (r: map<nat, nat>)
    ensures r == MoveRow(row, table, drain)
  {
    r := row;
    var pending := table.Keys;
    assert Restrict(table, pending) == table;
    while pending != {}
      invariant pending <= table.Keys
      invariant MoveRow(r, Restrict(table, pending), drain) == MoveRow(row, table, drain)
      decreases |pending|
    {
      MinExists(pending);
      var w :| w in pending && forall x :: x in pending ==> w <= x;
      var c := Get(table, w);
      MoveRowFirst(r, Restrict(table, pending), drain, w);
      RestrictLess(table, pending, w);
      ghost var before := r;
      if drain {
        r := r[w := SizeT.Sub(Get(r, w), c)];
      }
      r := r[c := SizeT.Add(Get(r, c), c)];
      assert r == MoveEntry(before, w, c, drain);
      pending := pending - {w};
    }
    assert Restrict(table, pending) == map[];
  }

  /**
   * The transfer touches the row only at the table's words (when draining)
   * and at the table's counts; every other entry of the dish row is kept.
   */
  lemma {:induction false} MoveRowFrame(row: map<nat, nat>, table: map<nat, nat>, drain: bool, x: nat)
    requires !(drain && x in table)
    requires forall w :: w in table ==> table[w] != x
    ensures Get(MoveRow(row, table, drain), x) == Get(row, x)
    decreases |table.Keys|
  {
    if table.Keys != {} {
      var w := MinKey(table.Keys);
      assert (table - {w}).Keys == table.Keys - {w};
      MoveRowFrame(MoveEntry(row, w, table[w], drain), table - {w}, drain, x);
    }
  }

  /**
   * The transfer is not a no-op for a table and dish that hold the same
   * tokens: two tokens of word 5 take 2 off the dish's count of word 5 and
   * put 2 on its count of word 2.
   */
  lemma MoveRowShifts()
    ensures MoveRow(map[5 := 2], map[5 := 2], true) == map[5 := 0, 2 := 2]
  {
    var table := map[5 := 2];
    assert table.Keys == {5};
    assert MinKey(table.Keys) == 5;
    assert table - {5} == map[];
    assert MoveEntry(map[5 := 2], 5, 2, true) == map[5 := 0, 2 := 2];
  }
}
