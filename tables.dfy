/**
 * Bookkeeping of one document ("restaurant"): which table each token sits
 * at (`t_ji[j]`), the active tables (`using_t[j]`), the tokens per table
 * (`n_jt[j]`) and the tokens per table and word (`n_jtv[j]`). The lemmas
 * are the three moves `sampling_t` makes on this state: a token leaves its
 * table (the table closing when it empties), a table is opened at the
 * smallest free id, and a token is seated.
 */
module Tables {
  import opened Vectors
  import opened Registry
  import opened Tally

  /**
   * Shape of a document's table arrays: the active tables form a registry,
   * every active id has a slot, and every slot's dish has a slot among the
   * `dishSlots` dish counters.
   */
  predicate DocShape(using: seq<nat>, kj: seq<nat>, nj: seq<nat>, nv: seq<map<nat, nat>>, dishSlots: nat)
  {
    IsRegistry(using) && |kj| == |nj| && |nj| == |nv| &&
    (forall t :: t in using ==> t < |nj|) &&
    (forall t :: 0 <= t < |kj| ==> kj[t] < dishSlots)
  }

  /** `n_jt[j][t]` is the sum over words of `n_jtv[j][t]`, for every table slot. */
  ghost predicate TableSums(nj: seq<nat>, nv: seq<map<nat, nat>>)
  {
    |nj| == |nv| && forall t :: 0 <= t < |nj| ==> nj[t] == MapSum(nv[t])
  }

  /**
   * The token counters of a document agree with its seating `ts`: a seated
   * token (table id other than 0) sits at an active table, `n_jtv[j][t][v]`
   * is the number of tokens with word `v` at table `t`, and an active table
   * other than the sentinel has a token, except possibly the table `exempt`
   * (one just opened and not yet given its token).
   */
  ghost predicate Seated(ts: seq<nat>, xs: seq<nat>, using: seq<nat>, nj: seq<nat>,
                         nv: seq<map<nat, nat>>, exempt: nat)
  {
    |ts| == |xs| && |nj| == |nv| &&
    (forall i :: 0 <= i < |ts| && ts[i] != 0 ==> ts[i] in using) &&
    (forall t, v :: 0 < t < |nv| ==> Get(nv[t], v) == Occ(ts, xs, t, v)) &&
    (forall t :: t in using && t != 0 && t != exempt ==> t < |nj| && nj[t] > 0)
  }

  /** No token sits at a table whose word counters are all zero. */
  lemma EmptyTableHoldsNoToken(ts: seq<nat>, xs: seq<nat>, nv: seq<map<nat, nat>>, t: nat)
    requires |ts| == |xs| && 0 < t < |nv|
    requires forall t', v :: 0 < t' < |nv| ==> Get(nv[t'], v) == Occ(ts, xs, t', v)
    requires MapSum(nv[t]) == 0
    ensures forall i :: 0 <= i < |ts| ==> ts[i] != t
  {
    MapSumZero(nv[t]);
    forall i | 0 <= i < |ts|
      ensures ts[i] != t
    {
      OccUpdate(ts, xs, i, 0, t, xs[i]);
      assert Get(nv[t], xs[i]) == 0;
    }
  }

  /**
   * `leave_from_table` on one document: token `i`, at table `t`, leaves it;
   * `n_jt[j][t]` and `n_jtv[j][t][v]` drop by one (neither is 0 beforehand,
   * so neither wraps), and the table is dropped from the active list
   * exactly when its count reaches 0. The result is the bookkeeping of the
   * document with token `i` unseated.
   */
  lemma {:induction false} LeaveToken(ts: seq<nat>, xs: seq<nat>, using: seq<nat>, nj: seq<nat>,
                                      nv: seq<map<nat, nat>>, i: nat)
    requires Seated(ts, xs, using, nj, nv, 0) && TableSums(nj, nv)
    requires IsRegistry(using) && forall t :: t in using ==> t < |nj|
    requires i < |ts| && ts[i] != 0
    ensures ts[i] < |nj| && Get(nv[ts[i]], xs[i]) >= 1 && nj[ts[i]] >= 1
    ensures var t, v := ts[i], xs[i];
            var nj' := nj[t := nj[t] - 1];
            var nv' := nv[t := Drop(nv[t], v)];
            var using' := if nj[t] == 1 then Without(using, t) else using;
            Seated(ts[i := 0], xs, using', nj', nv', 0) && TableSums(nj', nv')
  {
    var t, v := ts[i], xs[i];
    assert t in using;
    OccUpdate(ts, xs, i, 0, t, v);
    MapSumBounds(nv[t], v);
    var ts' := ts[i := 0];
    var nj' := nj[t := nj[t] - 1];
    var nv' := nv[t := Drop(nv[t], v)];
    var using' := if nj[t] == 1 then Without(using, t) else using;
    MapSumUpdate(nv[t], v, Get(nv[t], v) - 1);
    assert TableSums(nj', nv');
    forall t', w | 0 < t' < |nv'|
      ensures Get(nv'[t'], w) == Occ(ts', xs, t', w)
    {
      OccUpdate(ts, xs, i, 0, t', w);
    }
    RemoveId(using, t);
    if nj[t] == 1 {
      EmptyTableHoldsNoToken(ts', xs, nv', t);
    }
    forall i' | 0 <= i' < |ts'| && ts'[i'] != 0
      ensures ts'[i'] in using'
    {
      assert ts'[i'] == ts[i'];
    }
  }

  /**
   * Opening table `g` (a free, non-sentinel id) in one document: `g` is
   * inserted into the active list, the arrays may have grown by empty
   * slots, and slot `g` is reset to an empty table. Only `g` may then be an
   * active table without tokens.
   */
  lemma {:induction false} OpenTable(ts: seq<nat>, xs: seq<nat>, using: seq<nat>, nj: seq<nat>,
                                     nv: seq<map<nat, nat>>, g: nat,
                                     nj': seq<nat>, nv': seq<map<nat, nat>>)
    requires Seated(ts, xs, using, nj, nv, 0) && TableSums(nj, nv)
    requires IsRegistry(using) && forall t :: t in using ==> t < |nj|
    requires 0 < g <= |using| && g !in using
    requires forall p :: 0 <= p < g ==> using[p] == p
    requires g < |using| ==> using[g] > g
    requires |nj'| == |nv'| && |nj| <= |nj'| && g < |nj'|
    requires forall t :: 0 <= t < |nj'| && t != g ==>
               nj'[t] == (if t < |nj| then nj[t] else 0) &&
               nv'[t] == (if t < |nj| then nv[t] else map[])
    requires nj'[g] == 0
    requires forall w :: Get(nv'[g], w) == 0 || (g < |nv| && Get(nv'[g], w) == Get(nv[g], w))
    ensures Seated(ts, xs, Inserted(using, g), nj', nv', g) && TableSums(nj', nv')
  {
    InsertGap(using, g);
    var using' := Inserted(using, g);
    forall i | 0 <= i < |ts| && ts[i] != 0
      ensures ts[i] != g && ts[i] < |nj|
    {
      assert ts[i] in using;
    }
    forall t, w | 0 < t < |nv'|
      ensures Get(nv'[t], w) == Occ(ts, xs, t, w)
    {
      if t == g || t >= |nj| {
        OccNone(ts, xs, t, w);
      }
      if t == g && g < |nv| {
        assert Get(nv[g], w) == Occ(ts, xs, g, w);
      }
    }
    forall t | 0 <= t < |nj'|
      ensures nj'[t] == MapSum(nv'[t])
    {
      if t == g || t >= |nj| {
        if t == g && g < |nv| {
          forall w ensures Get(nv[g], w) == 0 {
            OccNone(ts, xs, g, w);
          }
        }
        MapSumZero(nv'[t]);
      }
    }
  }

  /**
   * `seat_at_table` on one document: unseated token `i` is seated at active
   * table `t`; `n_jt[j][t]` and `n_jtv[j][t][v]` grow by one. Afterwards no
   * active table is without tokens.
   */
  lemma {:induction false} SeatToken(ts: seq<nat>, xs: seq<nat>, using: seq<nat>, nj: seq<nat>,
                                     nv: seq<map<nat, nat>>, i: nat, t: nat, exempt: nat)
    requires Seated(ts, xs, using, nj, nv, exempt) && TableSums(nj, nv)
    requires i < |ts| && ts[i] == 0
    requires t in using && t != 0 && t < |nj|
    requires exempt == 0 || exempt == t
    ensures var v := xs[i];
            var nj' := nj[t := nj[t] + 1];
            var nv' := nv[t := Bump(nv[t], v)];
            Seated(ts[i := t], xs, using, nj', nv', 0) && TableSums(nj', nv')
  {
    var v := xs[i];
    var ts' := ts[i := t];
    var nj' := nj[t := nj[t] + 1];
    var nv' := nv[t := Bump(nv[t], v)];
    MapSumUpdate(nv[t], v, Get(nv[t], v) + 1);
    forall t', w | 0 < t' < |nv'|
      ensures Get(nv'[t'], w) == Occ(ts', xs, t', w)
    {
      OccUpdate(ts, xs, i, t, t', w);
    }
    assert TableSums(nj', nv');
  }
}
