/**
 * Counting functions over the sampler's containers, used to state what its
 * counters are supposed to hold: sums over a `std::map<size_t, size_t>`,
 * the number of tokens of a document seated at one table with one word,
 * the number of tables serving a dish, and the table total of the active
 * dishes.
 */
module Tally {

  /** Reading `m[key]` from a `std::map`: an absent key reads as 0. */
  function Get(m: map<nat, nat>, key: nat): nat
  {
    if key in m then m[key] else 0
  }

  /** Reading `m[key]` through `std::map::operator[]`: an absent key is inserted with 0. */
  function Touch(m: map<nat, nat>, key: nat): (r: map<nat, nat>)
    ensures r.Keys == m.Keys + {key}
    ensures forall k :: Get(r, k) == Get(m, k)
  {
    if key in m then m else m[key := 0]
  }

  /** `m[key] += 1` on a `std::map` (an absent key starts from 0). */
  function Bump(m: map<nat, nat>, key: nat): (r: map<nat, nat>)
    ensures r.Keys == m.Keys + {key}
    ensures Get(r, key) == Get(m, key) + 1
    ensures forall k :: k != key ==> Get(r, k) == Get(m, k)
  {
    m[key := Get(m, key) + 1]
  }

  /** `m[key] -= 1` on a `std::map` whose entry is at least 1. */
  function Drop(m: map<nat, nat>, key: nat): (r: map<nat, nat>)
    requires Get(m, key) >= 1
    ensures r.Keys == m.Keys + {key}
    ensures Get(r, key) == Get(m, key) - 1
    ensures forall k :: k != key ==> Get(r, k) == Get(m, k)
  {
    m[key := Get(m, key) - 1]
  }

  // ---------------------------------------------------------------------
  // Sum of the values of a map

  /** Sum of `m[k]` over the keys `k` in `keys`. */
  ghost function SumOver(m: map<nat, nat>, keys: set<nat>): nat
    requires keys <= m.Keys
    decreases keys
  {
    if keys == {} then 0
    else
      var k :| k in keys;
      m[k] + SumOver(m, keys - {k})
  }

  /** Sum of all values of a map: `sum(n.values())`. */
  ghost function MapSum(m: map<nat, nat>): nat
  {
    SumOver(m, m.Keys)
  }

  /** Any key can be taken out of the sum first, whichever key the definition picks. */
  lemma {:induction false} SumOverRemove(m: map<nat, nat>, keys: set<nat>, k: nat)
    requires keys <= m.Keys && k in keys
    ensures SumOver(m, keys) == m[k] + SumOver(m, keys - {k})
    decreases keys
  {
    var k' :| k' in keys && SumOver(m, keys) == m[k'] + SumOver(m, keys - {k'});
    if k' != k {
      SumOverRemove(m, keys - {k'}, k);
      SumOverRemove(m, keys - {k}, k');
      assert keys - {k'} - {k} == keys - {k} - {k'};
    }
  }

  /** The sum depends only on the values at the summed keys. */
  lemma {:induction false} SumOverFrame(m1: map<nat, nat>, m2: map<nat, nat>, keys: set<nat>)
    requires keys <= m1.Keys && keys <= m2.Keys
    requires forall k :: k in keys ==> m1[k] == m2[k]
    ensures SumOver(m1, keys) == SumOver(m2, keys)
    decreases keys
  {
    if keys != {} {
      var k :| k in keys && SumOver(m1, keys) == m1[k] + SumOver(m1, keys - {k});
      SumOverRemove(m2, keys, k);
      SumOverFrame(m1, m2, keys - {k});
    }
  }

  /** Setting one entry changes the sum by the difference at that entry. */
  lemma MapSumUpdate(m: map<nat, nat>, k: nat, x: nat)
    ensures MapSum(m[k := x]) == MapSum(m) - Get(m, k) + x
  {
    var m' := m[k := x];
    SumOverRemove(m', m'.Keys, k);
    assert m'.Keys - {k} == m.Keys - {k};
    SumOverFrame(m', m, m.Keys - {k});
    if k in m {
      SumOverRemove(m, m.Keys, k);
    } else {
      assert m.Keys - {k} == m.Keys;
    }
  }

  /** No single entry exceeds the sum. */
  lemma MapSumBounds(m: map<nat, nat>, k: nat)
    ensures Get(m, k) <= MapSum(m)
  {
    if k in m {
      SumOverRemove(m, m.Keys, k);
    }
  }

  /** A map all of whose values are 0 sums to 0. */
  lemma {:induction false} SumOverZero(m: map<nat, nat>, keys: set<nat>)
    requires keys <= m.Keys
    requires forall k :: k in keys ==> m[k] == 0
    ensures SumOver(m, keys) == 0
    decreases keys
  {
    if keys != {} {
      var k :| k in keys && SumOver(m, keys) == m[k] + SumOver(m, keys - {k});
      SumOverZero(m, keys - {k});
    }
  }

  /** A map sums to 0 exactly when every key reads as 0. */
  lemma MapSumZero(m: map<nat, nat>)
    ensures MapSum(m) == 0 <==> forall k :: Get(m, k) == 0
  {
    if forall k :: Get(m, k) == 0 {
      forall k | k in m.Keys ensures m[k] == 0 {
        assert Get(m, k) == 0;
      }
      SumOverZero(m, m.Keys);
    }
    if MapSum(m) == 0 {
      forall k ensures Get(m, k) == 0 {
        MapSumBounds(m, k);
      }
    }
  }

  /** `row` with the entries `0 .. size-1` set to 0 and every other entry kept. */
  function Zeroed(row: map<nat, nat>, size: nat): (r: map<nat, nat>)
    ensures forall v: nat :: v in r <==> v in row || v < size
    ensures forall v: nat :: v in r ==> r[v] == (if v < size then 0 else row[v])
  {
    if size == 0 then row else Zeroed(row, size - 1)[size - 1 := 0]
  }

  /** The zero-fill loops `for (i = 0; i < V; ++i) row[i] = 0;`. */
  method ZeroFill(row: map<nat, nat>, size: nat) returns (r: map<nat, nat>)
    ensures r == Zeroed(row, size)
  {
    r := row;
    for i := 0 to size
      invariant r == Zeroed(row, i)
    {
      r := r[i := 0];
    }
  }

  // ---------------------------------------------------------------------
  // Tokens of a document at a given table with a given word

  /**
   * Number of positions `i` with `ts[i] == t` and `xs[i] == v`: how many of a
   * document's tokens (word ids `xs`, table assignment `ts`) sit at table `t`
   * and carry word `v`.
   */
  function Occ(ts: seq<nat>, xs: seq<nat>, t: nat, v: nat): nat
    requires |ts| == |xs|
    decreases |ts|
  {
    if |ts| == 0 then 0
    else
      var n := |ts| - 1;
      Occ(ts[..n], xs[..n], t, v) + (if ts[n] == t && xs[n] == v then 1 else 0)
  }

  /** Reseating one token moves exactly that token between the counts. */
  lemma {:induction false} OccUpdate(ts: seq<nat>, xs: seq<nat>, i: nat, a: nat, t: nat, v: nat)
    requires |ts| == |xs| && i < |ts|
    ensures Occ(ts[i := a], xs, t, v)
         == Occ(ts, xs, t, v) - (if ts[i] == t && xs[i] == v then 1 else 0)
                              + (if a == t && xs[i] == v then 1 else 0)
    ensures ts[i] == t && xs[i] == v ==> Occ(ts, xs, t, v) >= 1
    decreases |ts|
  {
    var n := |ts| - 1;
    var ts' := ts[i := a];
    if i == n {
      assert ts'[..n] == ts[..n];
    } else {
      assert ts'[..n] == ts[..n][i := a];
      OccUpdate(ts[..n], xs[..n], i, a, t, v);
    }
  }

  /** A table no token points at holds no token. */
  lemma {:induction false} OccNone(ts: seq<nat>, xs: seq<nat>, t: nat, v: nat)
    requires |ts| == |xs|
    requires forall i :: 0 <= i < |ts| ==> ts[i] != t
    ensures Occ(ts, xs, t, v) == 0
    decreases |ts|
  {
    if |ts| > 0 {
      OccNone(ts[..|ts| - 1], xs[..|xs| - 1], t, v);
    }
  }

  // ---------------------------------------------------------------------
  // Tables serving a dish

  /** The dish of table id `t` when the id has a slot in `kj`, else 0. */
  function DishOf(kj: seq<nat>, t: nat): nat
  {
    if t < |kj| then kj[t] else 0
  }

  /** Number of non-sentinel tables in the list `ts` whose dish (in `kj`) is `k`. */
  function CountServing(ts: seq<nat>, kj: seq<nat>, k: nat): nat
    decreases |ts|
  {
    if |ts| == 0 then 0
    else
      var n := |ts| - 1;
      CountServing(ts[..n], kj, k) + (if ts[n] != 0 && DishOf(kj, ts[n]) == k then 1 else 0)
  }

  /** Counting over a concatenation adds the counts of the parts. */
  lemma {:induction false} CountServingAppend(a: seq<nat>, b: seq<nat>, kj: seq<nat>, k: nat)
    ensures CountServing(a + b, kj, k) == CountServing(a, kj, k) + CountServing(b, kj, k)
    decreases |b|
  {
    if |b| > 0 {
      var n := |b| - 1;
      assert (a + b)[..|a + b| - 1] == a + b[..n];
      CountServingAppend(a, b[..n], kj, k);
    } else {
      assert a + b == a;
    }
  }

  /** The count depends only on the dishes of the listed tables. */
  lemma {:induction false} CountServingFrame(ts: seq<nat>, kj1: seq<nat>, kj2: seq<nat>, k: nat)
    requires forall p :: 0 <= p < |ts| && ts[p] != 0 ==> DishOf(kj1, ts[p]) == DishOf(kj2, ts[p])
    ensures CountServing(ts, kj1, k) == CountServing(ts, kj2, k)
    decreases |ts|
  {
    if |ts| > 0 {
      CountServingFrame(ts[..|ts| - 1], kj1, kj2, k);
    }
  }

  /** The count of a one-table list. */
  lemma CountServingOne(t: nat, kj: seq<nat>, k: nat)
    ensures CountServing([t], kj, k) == (if t != 0 && DishOf(kj, t) == k then 1 else 0)
  {
    assert [t][..0] == [];
  }

  /** A table in the list with dish `k` is counted. */
  lemma CountServingPositive(ts: seq<nat>, kj: seq<nat>, p: nat, k: nat)
    requires p < |ts| && ts[p] != 0 && DishOf(kj, ts[p]) == k
    ensures CountServing(ts, kj, k) >= 1
  {
    assert ts == ts[..p] + [ts[p]] + ts[p + 1..];
    CountServingAppend(ts[..p] + [ts[p]], ts[p + 1..], kj, k);
    CountServingAppend(ts[..p], [ts[p]], kj, k);
    CountServingOne(ts[p], kj, k);
  }

  /** Total over all documents of the tables serving dish `k`. */
  function Serving(ut: seq<seq<nat>>, kjt: seq<seq<nat>>, k: nat): nat
    requires |ut| == |kjt|
    decreases |ut|
  {
    if |ut| == 0 then 0
    else
      var n := |ut| - 1;
      Serving(ut[..n], kjt[..n], k) + CountServing(ut[n], kjt[n], k)
  }

  /** Changing one document changes the total by that document's change. */
  lemma {:induction false} ServingUpdate(ut: seq<seq<nat>>, kjt: seq<seq<nat>>, j: nat,
                                         a: seq<nat>, b: seq<nat>, k: nat)
    requires |ut| == |kjt| && j < |ut|
    ensures Serving(ut[j := a], kjt[j := b], k)
         == Serving(ut, kjt, k) - CountServing(ut[j], kjt[j], k) + CountServing(a, b, k)
    ensures Serving(ut, kjt, k) >= CountServing(ut[j], kjt[j], k)
    decreases |ut|
  {
    var n := |ut| - 1;
    if j == n {
      assert ut[j := a][..n] == ut[..n];
      assert kjt[j := b][..n] == kjt[..n];
    } else {
      assert ut[j := a][..n] == ut[..n][j := a];
      assert kjt[j := b][..n] == kjt[..n][j := b];
      ServingUpdate(ut[..n], kjt[..n], j, a, b, k);
    }
  }

  // ---------------------------------------------------------------------
  // Tables of the active dishes

  /** `mk[x]` for a non-sentinel id with a slot, else 0. */
  function Weight(mk: seq<nat>, x: nat): nat
  {
    if x != 0 && x < |mk| then mk[x] else 0
  }

  /** Sum of `mk[k]` over the non-sentinel ids `k` listed in `ids`. */
  function ActiveSum(ids: seq<nat>, mk: seq<nat>): nat
    decreases |ids|
  {
    if |ids| == 0 then 0
    else
      var n := |ids| - 1;
      ActiveSum(ids[..n], mk) + Weight(mk, ids[n])
  }

  /** Summing over a concatenation adds the sums of the parts. */
  lemma {:induction false} ActiveSumAppend(a: seq<nat>, b: seq<nat>, mk: seq<nat>)
    ensures ActiveSum(a + b, mk) == ActiveSum(a, mk) + ActiveSum(b, mk)
    decreases |b|
  {
    if |b| > 0 {
      var n := |b| - 1;
      assert (a + b)[..|a + b| - 1] == a + b[..n];
      ActiveSumAppend(a, b[..n], mk);
    } else {
      assert a + b == a;
    }
  }

  /** The sum depends only on the weights of the listed ids. */
  lemma {:induction false} ActiveSumFrame(ids: seq<nat>, mk1: seq<nat>, mk2: seq<nat>)
    requires forall p :: 0 <= p < |ids| ==> Weight(mk1, ids[p]) == Weight(mk2, ids[p])
    ensures ActiveSum(ids, mk1) == ActiveSum(ids, mk2)
    decreases |ids|
  {
    if |ids| > 0 {
      ActiveSumFrame(ids[..|ids| - 1], mk1, mk2);
    }
  }

  /** The sum of a one-id list. */
  lemma ActiveSumOne(x: nat, mk: seq<nat>)
    ensures ActiveSum([x], mk) == Weight(mk, x)
  {
    assert [x][..0] == [];
  }

  /**
   * When `k` is listed exactly once, at position `p`, the sum is `mk[k]`
   * plus the sum over the other ids.
   */
  lemma ActiveSumSplit(ids: seq<nat>, mk: seq<nat>, p: nat)
    requires p < |ids|
    ensures ActiveSum(ids, mk) == ActiveSum(ids[..p] + ids[p + 1..], mk) + Weight(mk, ids[p])
  {
    assert ids == ids[..p] + [ids[p]] + ids[p + 1..];
    ActiveSumAppend(ids[..p] + [ids[p]], ids[p + 1..], mk);
    ActiveSumAppend(ids[..p], [ids[p]], mk);
    ActiveSumAppend(ids[..p], ids[p + 1..], mk);
    ActiveSumOne(ids[p], mk);
  }
}
