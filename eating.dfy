/**
 * Counting the tokens that eat a dish: a token eats dish `k` when it sits
 * at a table other than the sentinel and that table serves `k`. These are
 * the counts `n_kv[k][v]` (tokens of word `v`) and `n_k[k]` (every token,
 * above the `beta * V` baseline) are meant to hold.
 */
module Eating {
  import opened Tally
  import SizeT

  /** Which tokens a count takes in: those of one word, or every token. */
  datatype Words = Only(v: nat) | Every
  {
    predicate Takes(x: nat)
    {
      Every? || x == v
    }
  }

  /** A token at table `t` with word `x` eats dish `k` (table dishes `kj`) and is of the words `w` takes. */
  predicate Eats(t: nat, x: nat, kj: seq<nat>, k: nat, w: Words)
  {
    t != 0 && DishOf(kj, t) == k && w.Takes(x)
  }

  /** Number of tokens of one document (tables `ts`, words `xs`) that eat `k` and are of the words `w` takes. */
  function DocEating(ts: seq<nat>, xs: seq<nat>, kj: seq<nat>, k: nat, w: Words): nat
    decreases |ts|
  {
    if |ts| == 0 then 0
    else
      var n := |ts| - 1;
      DocEating(ts[..n], xs, kj, k, w) + (if n < |xs| && Eats(ts[n], xs[n], kj, k, w) then 1 else 0)
  }

  /** Reseating token `i` of a document changes its count by exactly that token's change. */
  lemma {:induction false} DocEatingUpdate(ts: seq<nat>, xs: seq<nat>, kj: seq<nat>, k: nat, w: Words,
                                           i: nat, a: nat)
    requires i < |ts| && i < |xs|
    ensures DocEating(ts[i := a], xs, kj, k, w)
         == DocEating(ts, xs, kj, k, w) - (if Eats(ts[i], xs[i], kj, k, w) then 1 else 0)
                                        + (if Eats(a, xs[i], kj, k, w) then 1 else 0)
    ensures Eats(ts[i], xs[i], kj, k, w) ==> DocEating(ts, xs, kj, k, w) >= 1
    decreases |ts|
  {
    var n := |ts| - 1;
    if i == n {
      assert ts[i := a][..n] == ts[..n];
    } else {
      assert ts[i := a][..n] == ts[..n][i := a];
      DocEatingUpdate(ts[..n], xs, kj, k, w, i, a);
    }
  }

  /** The count depends only on the dishes of the tables the tokens sit at. */
  lemma {:induction false} DocEatingFrame(ts: seq<nat>, xs: seq<nat>, kj1: seq<nat>, kj2: seq<nat>, k: nat, w: Words)
    requires forall i :: 0 <= i < |ts| && ts[i] != 0 ==> DishOf(kj1, ts[i]) == DishOf(kj2, ts[i])
    ensures DocEating(ts, xs, kj1, k, w) == DocEating(ts, xs, kj2, k, w)
    decreases |ts|
  {
    if |ts| > 0 {
      DocEatingFrame(ts[..|ts| - 1], xs, kj1, kj2, k, w);
    }
  }

  /** A document none of whose seated tokens sits at a table serving `k` has no token eating `k`. */
  lemma {:induction false} DocEatingNone(ts: seq<nat>, xs: seq<nat>, kj: seq<nat>, k: nat, w: Words)
    requires forall i :: 0 <= i < |ts| && ts[i] != 0 ==> DishOf(kj, ts[i]) != k
    ensures DocEating(ts, xs, kj, k, w) == 0
    decreases |ts|
  {
    if |ts| > 0 {
      DocEatingNone(ts[..|ts| - 1], xs, kj, k, w);
    }
  }

  /** Number of tokens of the first `n` documents that eat `k` and are of the words `w` takes. */
  function CorpusEating(ts: seq<seq<nat>>, xs: seq<seq<nat>>, kjt: seq<seq<nat>>, k: nat, w: Words, n: nat): nat
  {
    if n == 0 then 0
    else
      var j := n - 1;
      CorpusEating(ts, xs, kjt, k, w, j) +
      (if j < |ts| && j < |xs| && j < |kjt| then DocEating(ts[j], xs[j], kjt[j], k, w) else 0)
  }

  /** The count over the first `n` documents depends only on those documents. */
  lemma {:induction false} CorpusEatingAgree(ts: seq<seq<nat>>, ts': seq<seq<nat>>, xs: seq<seq<nat>>,
                                             kjt: seq<seq<nat>>, kjt': seq<seq<nat>>, k: nat, w: Words, n: nat)
    requires |ts'| == |ts| && |kjt'| == |kjt|
    requires forall j :: 0 <= j < n && j < |ts| ==> ts'[j] == ts[j]
    requires forall j :: 0 <= j < n && j < |kjt| ==> kjt'[j] == kjt[j]
    ensures CorpusEating(ts', xs, kjt', k, w, n) == CorpusEating(ts, xs, kjt, k, w, n)
  {
    if n > 0 {
      CorpusEatingAgree(ts, ts', xs, kjt, kjt', k, w, n - 1);
    }
  }

  /** Changing document `j` changes the count by that document's change. */
  lemma {:induction false} CorpusEatingUpdate(ts: seq<seq<nat>>, xs: seq<seq<nat>>, kjt: seq<seq<nat>>,
                                              k: nat, w: Words, n: nat, j: nat, a: seq<nat>, b: seq<nat>)
    requires j < n && j < |ts| && j < |xs| && j < |kjt|
    ensures CorpusEating(ts[j := a], xs, kjt[j := b], k, w, n)
         == CorpusEating(ts, xs, kjt, k, w, n) - DocEating(ts[j], xs[j], kjt[j], k, w)
                                               + DocEating(a, xs[j], b, k, w)
    ensures CorpusEating(ts, xs, kjt, k, w, n) >= DocEating(ts[j], xs[j], kjt[j], k, w)
  {
    if j == n - 1 {
      CorpusEatingAgree(ts, ts[j := a], xs, kjt, kjt[j := b], k, w, n - 1);
    } else {
      CorpusEatingUpdate(ts, xs, kjt, k, w, n - 1, j, a, b);
    }
  }

  /** A seating none of whose seated tokens sits at a table serving `k` has no token eating `k`. */
  lemma {:induction false} CorpusEatingNone(ts: seq<seq<nat>>, xs: seq<seq<nat>>, kjt: seq<seq<nat>>,
                                            k: nat, w: Words, n: nat)
    requires forall j, i :: 0 <= j < n && j < |ts| && j < |kjt| && 0 <= i < |ts[j]| && ts[j][i] != 0 ==>
               DishOf(kjt[j], ts[j][i]) != k
    ensures CorpusEating(ts, xs, kjt, k, w, n) == 0
  {
    if n > 0 {
      CorpusEatingNone(ts, xs, kjt, k, w, n - 1);
      var j := n - 1;
      if j < |ts| && j < |xs| && j < |kjt| {
        DocEatingNone(ts[j], xs[j], kjt[j], k, w);
      }
    }
  }

  /** A 64-bit counter holding a positive count modulo 2^64 drops to the count less one. */
  lemma SubOneMod(c: nat)
    requires c >= 1
    ensures SizeT.Sub(c % SizeT.MODULUS, 1) == (c - 1) % SizeT.MODULUS
  {
    var m := SizeT.MODULUS;
    var q := c / m;
    assert c == q * m + c % m;
    if c % m == 0 {
      assert c - 1 == (q - 1) * m + (m - 1);
    } else {
      assert c - 1 == q * m + (c % m - 1);
    }
  }

  /** A 64-bit counter holding a count modulo 2^64 grows to the count plus one. */
  lemma AddOneMod(c: nat)
    ensures SizeT.Add(c % SizeT.MODULUS, 1) == (c + 1) % SizeT.MODULUS
  {
    var m := SizeT.MODULUS;
    var q := c / m;
    assert c == q * m + c % m;
    if c % m == m - 1 {
      assert c + 1 == (q + 1) * m;
    } else {
      assert c + 1 == q * m + (c % m + 1);
    }
  }
}
