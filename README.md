# HDP-LDA Chinese Restaurant Franchise bookkeeping, in Dafny

This project models the `state` class of `include/microscopes/lda/model.hpp`.
The class is a collapsed Gibbs sampler for HDP-LDA in the Chinese Restaurant
Franchise representation:

- every document `j` is a restaurant;
- each of its tokens is a customer seated at a table (`t_ji`);
- every active table serves a dish, that is a topic (`k_jt`).

The model covers the sampler's integer bookkeeping:

- the active-id lists `using_t[j]` and `using_k`, which are ascending and start with the reserved sentinel id 0;
- the gap scan that hands out the smallest free id;
- the counters moved one token or one table at a time:
  - `n_jt` and `n_jtv`, the tokens per table;
  - `n_k` and `n_kv`, the tokens per dish;
  - `m_k`, the tables per dish;
  - `m`, the total number of tables.

The sampled positions that `sample_discrete` would draw are parameters. The
properties below are therefore proved for every draw that falls inside the list it indexes.

Layout:

- `Vectors`: `removeFirst` and `selectByIndex`.
- `SizeT`: 64-bit unsigned wrap-around for the `size_t` word counters.
- `Registry`: the active-id lists and the gap scan.
- `Tally`: the counting functions used to state the invariants.
- `Tables` and `Dishes`: what each move does to one document's tables and to the corpus-wide dish counters.
- `Transfer`: the word-count loop of `seat_at_dish`.
- `Definition`: `model_definition`.
- `Bookkeeping`: the state as a value, `Books`, with each operation as a function from the state before to the state after, and the invariant `Consistent`.
- `Preservation`: what each operation keeps.
- `Eating` and `Tallies`: the number of tokens eating each dish, and the invariant `Tallied` that ties `n_k` and `n_kv` to it.
- `Franchise.State`: a class whose fields are the sampler's vectors and maps. Its methods update them in place and are proved to follow the `Bookkeeping` functions.

`Consistent` says five things:

1. Every active id has a slot in its arrays.
2. `n_jtv[j][t][v]` is the number of tokens of word `v` seated at `t`.
3. `n_jt[j][t]` is the sum of `n_jtv[j][t]`.
4. `m_k[k]` is the number of active tables serving `k`, and every active table serves an active dish.
5. `m` is the sum of `m_k[k]` over the active dishes other than 0, and no such dish and no active non-sentinel table is empty.

`Tallied` says that for every active dish `k` other than 0:

- `n_k[k]` is `beta * V` plus the number of seated tokens whose table serves `k`;
- for every word `v < V`, `n_kv[k][v]` is the number of those tokens of word `v`, modulo 2^64.

The constructor establishes both invariants, and `sampling_t` keeps both.

The model follows the code as written, including these behaviours:

- `usedDishes()` returns the length of `using_k`, which counts the sentinel dish.
- `seat_at_dish` counts the table for the new dish in `m_k` and `m`, but records the dish on the table and moves the token counts only when the new dish equals the table's old one. When it moves the counts, it adds each count to `n_kv` under the key equal to the count, not the word. `Preservation.SampledDishMiscounts` exhibits the resulting miscount of `m_k`. `Transfer.MoveRowShifts` exhibits the count-keyed transfer.
- `calc_dish_posterior_t` lowers `n_k` of the table's dish by the table's size as a side effect. The model keeps that effect.
- `inference` also passes the sentinel table 0 to `sampling_k`. The model does not cover `inference`.
- `n_k` is a plain float that starts at `beta * V`, and `n_kv` holds explicit zero entries for the words below `V`.
- The two checks in `model_definition` are `MICROSCOPES_DCHECK`s. The model follows the build in which they are active, so a definition with no documents or no terms is an error.

## Model

| member | source | states |
|---|---|---|
| Vectors.RemoveFirst | include/microscopes/lda/model.hpp:31-37 | erases exactly the first occurrence of the element when it occurs, and returns the vector unchanged otherwise |
| Vectors.WithoutCounts | include/microscopes/lda/model.hpp:31-37 | erasing takes exactly one copy of the element out of the vector's multiset when there is one, and shortens it by one |
| Vectors.WithoutMembers | include/microscopes/lda/model.hpp:31-37 | every other value is in the vector after the erase exactly when it was before |
| Vectors.SelectByIndex | include/microscopes/lda/model.hpp:40-48 | the result has one entry per index, the element of `v` at that index, in order |
| Definition.NewModelDefinition | include/microscopes/lda/model.hpp:53-58 | a definition is made exactly when both counts are positive; "no docs" when there are no documents, otherwise "no terms" when the vocabulary is empty |
| Franchise.State.constructor | include/microscopes/lda/model.hpp:71-123 | every document has only table 0, `using_k == [0]`, `m == 0`, `m_k == [1]`, `n_k == [beta*V]`, `n_kv[0][v] == 0` for `v < V`, and each `t_ji[j]` is all zeros of the document's length; that state is consistent, with `n_k` and `n_kv` in step with the seating |
| Bookkeeping.Initial | include/microscopes/lda/model.hpp:71-123 | the state is well shaped over the given corpus; every document has only table 0 with `n_jt == 0`; `using_k == [0]`, `m_k == [1]`, `m == 0`, `n_k == [beta*V]`, `n_kv[0][v] == 0` below `V`; no token is seated |
| Tallies.InitialTallied | include/microscopes/lda/model.hpp:71-123 | the constructor's state has `n_k` and `n_kv` in step with its seating |
| Preservation.InitialConsistent | include/microscopes/lda/model.hpp:82-121 | the constructor's state satisfies every counter invariant |
| Franchise.State.UsedDishes | include/microscopes/lda/model.hpp:139-142 | the result is the number of distinct active dish ids, and one more than the number of non-sentinel ones |
| Registry.AscendingCard | include/microscopes/lda/model.hpp:139-142 | a strictly ascending list holds as many distinct ids as it has entries |
| Registry.FirstGap | include/microscopes/lda/model.hpp:320-328 | the scan returns the first position whose id differs from the position, or the length |
| Registry.GapIsSmallestFree | include/microscopes/lda/model.hpp:352-360 | on an active-id list the scan's result is the smallest id not in use: it is not 0, not in the list, and every smaller id is |
| Registry.InsertGap | include/microscopes/lda/model.hpp:369 | inserting that id at its own position keeps the list ascending from 0, grows it by one, and adds exactly that id |
| Registry.RemoveId | include/microscopes/lda/model.hpp:449 | erasing a non-sentinel id keeps the list ascending from 0 and removes exactly that id |
| Tally.ZeroFill | include/microscopes/lda/model.hpp:340-343 | the zero-fill loop sets entries `0 .. V-1` to 0 and keeps every other entry |
| Tally.Bump | include/microscopes/lda/model.hpp:314 | the map entry grows by one, an absent one reading as 0, and no other entry changes |
| Tally.Drop | include/microscopes/lda/model.hpp:437 | the map entry drops by one and no other entry changes |
| SizeT.Sub | include/microscopes/lda/model.hpp:434 | a 64-bit unsigned subtraction: exact when it does not go below zero, otherwise wrapped round modulo 2^64 |
| SizeT.Add | include/microscopes/lda/model.hpp:313 | a 64-bit unsigned addition: exact below 2^64, otherwise wrapped |
| Franchise.State.RemoveTable | include/microscopes/lda/model.hpp:446-456 | the new state is `RemovedTable` of the old: the table leaves `using_t[j]`, `m_k[k]` and `m` drop by one, and `k` leaves `using_k` when `m_k[k]` reaches 0 |
| Preservation.RemovedTableKeeps | include/microscopes/lda/model.hpp:446-456 | on a consistent state the table has a positive count to drop, and its dish leaves the active dishes exactly when it was the dish's last table; `m` stays the sum of `m_k` |
| Bookkeeping.RemovedTable | include/microscopes/lda/model.hpp:446-456 | the state stays well shaped over the same corpus; `k_jt`, `n_jt`, `n_jtv`, `t_ji`, `n_k` and `n_kv` are unchanged |
| Dishes.CloseTable | include/microscopes/lda/model.hpp:446-456 | `m_k[k]` and `m` are positive beforehand, and both dish invariants hold after the table closes |
| Franchise.State.LeaveFromTable | include/microscopes/lda/model.hpp:426-444 | the new state is `LeftTable` of the old: nothing for an unseated token; otherwise one token of its word leaves the table's and dish's counters, and the table is removed when `n_jt` reaches 0 |
| Preservation.CanLeaveHolds | include/microscopes/lda/model.hpp:426-444 | in a consistent state every counter `leave_from_table` decrements is positive |
| Preservation.TokenLeftKeeps | include/microscopes/lda/model.hpp:431-437 | after the four decrements the counters agree with the seating in which the token is off every table, and with the table list in which its table is gone when it held only this token |
| Preservation.LeftTableKeeps | include/microscopes/lda/model.hpp:426-444 | from a consistent state, the counters agree with the seating with the token unseated, and the dish invariants hold |
| Preservation.LeftTableEffect | include/microscopes/lda/model.hpp:426-444 | an unseated token changes nothing; otherwise the table leaves `using_t[j]` exactly when it held only this token, and then its dish and `m` lose a table, the dish leaving `using_k` when that was its last table |
| Bookkeeping.TokenLeft | include/microscopes/lda/model.hpp:431-437 | the state stays well shaped over the same corpus; the table and dish lists, `k_jt`, `m_k`, `m` and `t_ji` are unchanged |
| Bookkeeping.LeftTable | include/microscopes/lda/model.hpp:426-444 | the state stays well shaped over the same corpus, with `t_ji` and `k_jt` unchanged |
| Preservation.CanLeaveDishHolds | include/microscopes/lda/model.hpp:205-217 | in a consistent state, for an active table other than 0, the table's dish is active and not 0, and both `m_k` of that dish and `m` are positive |
| Tallies.TokenLeftTallies | include/microscopes/lda/model.hpp:431-437 | after a seated token leaves, `n_k` and `n_kv` (with its 64-bit decrement) count the tokens of the seating with that token unseated |
| Tallies.LeftTableTallies | include/microscopes/lda/model.hpp:426-456 | `leave_from_table`, including `remove_table`, leaves `n_k` and `n_kv` in step with the seating with the token unseated |
| Eating.SubOneMod | include/microscopes/lda/model.hpp:434 | a 64-bit counter holding a positive count modulo 2^64 holds the count less one after the decrement |
| Tables.LeaveToken | include/microscopes/lda/model.hpp:433-442 | one document's counters after a token leaves agree with its seating with the token unseated; the table leaves the list exactly when its count reaches 0 |
| Franchise.State.SeatAtTable | include/microscopes/lda/model.hpp:303-315 | the new state is `SeatedAt` of the old: `t_ji[j][i] = t`, each of `n_jt`, `n_jtv`, `n_k` and `n_kv` gains one for the token's word and the table's dish, and nothing else changes |
| Bookkeeping.SeatedAt | include/microscopes/lda/model.hpp:303-315 | the table and dish lists, `k_jt`, `m_k` and `m` are unchanged, and `t_ji` changes only at token `i` |
| Preservation.SeatedAtKeeps | include/microscopes/lda/model.hpp:303-315 | seating an unseated token at an active table keeps the counters in step with the seating that has the token there |
| Tables.SeatToken | include/microscopes/lda/model.hpp:306-314 | one document's counters agree with its seating after the token is seated, and no active table is empty |
| Tallies.SeatedAtTallies | include/microscopes/lda/model.hpp:303-315 | seating an unseated token at an active table other than 0 keeps `n_k` and `n_kv` in step with the seating that has it there |
| Eating.AddOneMod | include/microscopes/lda/model.hpp:313 | a 64-bit counter holding a count modulo 2^64 holds the count plus one after the increment |
| Franchise.State.AddNewDish | include/microscopes/lda/model.hpp:318-346 | the result and the new state are `WithNewDish` of the old state |
| Preservation.WithNewDishShape | include/microscopes/lda/model.hpp:318-346 | the id returned is the smallest one not in `using_k`; the dish arrays grow exactly when it equals the list's length; the new dish has `m_k == 0`, `n_k == beta*V` and zero word counters below `V`; every other dish slot is kept |
| Preservation.WithNewDishKeeps | include/microscopes/lda/model.hpp:318-346 | `m` stays the sum of `m_k`, the new dish being the one active dish allowed no table yet, and every table still serves an active dish that counts it |
| Bookkeeping.WithNewDish | include/microscopes/lda/model.hpp:318-346 | the id returned is the smallest free dish id, non-zero, and joins `using_k` in order; the tables, `n_jt`, `n_jtv`, `t_ji` and `m` are unchanged |
| Tallies.WithNewDishTallies | include/microscopes/lda/model.hpp:318-346 | no seated token eats the new dish and its counters are reset, so `n_k` and `n_kv` stay in step with the seating |
| Dishes.OpenDish | include/microscopes/lda/model.hpp:329-338 | inserting the free id with `m_k == 0` keeps the table total, with only that dish exempt from having a table |
| Franchise.State.AddNewTable | include/microscopes/lda/model.hpp:348-381 | the result and the new state are `WithNewTable` of the old state |
| Preservation.WithNewTableShape | include/microscopes/lda/model.hpp:348-381 | the id returned is the smallest free table id of the document; its arrays grow exactly when that equals the list's length; the table has `n_jt == 0`, zero word counters and dish `k`; `m_k[k]` and `m` each grow by exactly one |
| Preservation.WithNewTableSeats | include/microscopes/lda/model.hpp:361-374 | the table counters still agree with the seating, the new table being the one active table without tokens |
| Preservation.WithNewTableServes | include/microscopes/lda/model.hpp:369-378 | the dish counters count the new table for `k`, and `m` is again the sum of `m_k` with no dish exempt |
| Preservation.WithNewTableKeeps | include/microscopes/lda/model.hpp:348-381 | both of the above together |
| Bookkeeping.WithNewTable | include/microscopes/lda/model.hpp:348-381 | the id returned is the smallest free table id of the document, non-zero, and joins `using_t[j]` in order; `using_k` and `t_ji` are unchanged |
| Tallies.WithNewTableTallies | include/microscopes/lda/model.hpp:348-381 | every seated token's table keeps its dish, so `n_k` and `n_kv` stay in step with the seating |
| Tables.OpenTable | include/microscopes/lda/model.hpp:361-374 | opening a free table id keeps one document's counters in step with its seating, only that table being empty |
| Dishes.OpenTableAtDish | include/microscopes/lda/model.hpp:369-378 | inserting a table with dish `k` and adding one to `m_k[k]` and `m` keeps both dish invariants, `k` now having a table |
| Franchise.State.SamplingT | include/microscopes/lda/model.hpp:166-189 | the new state is `SampledTable` of the old, the `calc_f_k` key insertions included; from a consistent state the result is consistent and `t_ji[j][i]` is a non-zero member of `using_t[j]`; `n_k` and `n_kv` in step with the seating stay in step |
| Bookkeeping.SampledTable | include/microscopes/lda/model.hpp:166-189 | the state stays well shaped over the same corpus |
| Tallies.SampledTableTallies | include/microscopes/lda/model.hpp:166-189 | for every in-range sampled position, a consistent state with `n_k` and `n_kv` in step with its seating keeps them in step with the new seating |
| Preservation.SampledTableKeeps | include/microscopes/lda/model.hpp:166-189 | for every in-range sampled position, a consistent state stays consistent (including `n_jt == sum of n_jtv` for every table), `t_ji` changes only at the token, and the token sits at an active non-sentinel table |
| Preservation.SampledTableEffect | include/microscopes/lda/model.hpp:176-188 | the token sits at the sampled table when that is not the sentinel, with no list changing; otherwise at the smallest free table id, which serves the sampled dish or, if that is the sentinel, the smallest free dish id |
| Preservation.SampledTableReads | include/microscopes/lda/model.hpp:166-189 | every dish row of `n_kv` that existed before the call is still there afterwards, with the token's word as a key |
| Tally.Touch | include/microscopes/lda/model.hpp:464 | reading a `std::map` entry through `operator[]` adds the key and changes no count |
| Bookkeeping.WordRead | include/microscopes/lda/model.hpp:459-468 | only `n_kv` changes; every row, in every dish slot, gains key `v` and keeps every count |
| Franchise.State.CalcFk | include/microscopes/lda/model.hpp:459-468 | the loop over every dish slot leaves the state equal to `WordRead` of the old state |
| Tallies.WordReadTallies | include/microscopes/lda/model.hpp:459-468 | the inserted zero entries keep `n_k` and `n_kv` in step with the seating |
| Preservation.SeatedAtNewTableKeeps | include/microscopes/lda/model.hpp:177-188 | the new-table branch seats the token at the table it opens and leaves a consistent state |
| Bookkeeping.SeatedAtNewTable | include/microscopes/lda/model.hpp:177-188 | the state stays well shaped over the same corpus |
| Tallies.SeatedAtNewTableTallies | include/microscopes/lda/model.hpp:177-188 | the new-table branch keeps `n_k` and `n_kv` in step with the seating that has the token at the new table |
| Preservation.OpenedForShape | include/microscopes/lda/model.hpp:179-186 | the branch opens the smallest free table id at the sampled dish, or at the smallest free dish id which joins `using_k`, and `m` grows by one |
| Preservation.OpenedForKeeps | include/microscopes/lda/model.hpp:179-186 | after opening, the counters agree with the seating with the new table the only empty one, and the dish invariants hold |
| Bookkeeping.OpenedFor | include/microscopes/lda/model.hpp:179-186 | the table opened is the smallest free id of the document, non-zero and active afterwards, and `t_ji` is unchanged |
| Preservation.DishForKeeps | include/microscopes/lda/model.hpp:180-185 | the dish chosen is the sampled one or the smallest free id, which then joins `using_k` with no tables; the table total stays right and the dish invariants are kept |
| Bookkeeping.DishFor | include/microscopes/lda/model.hpp:180-185 | the dish chosen is active and not 0; the tables, `k_jt`, `n_jt`, `n_jtv`, `t_ji` and `m` are unchanged |
| Franchise.State.LeaveFromDish | include/microscopes/lda/model.hpp:205-217 | the new state is `LeftDish` of the old: `m_k[k]` and `m` drop by one, and when `m_k[k]` reaches 0 the dish leaves `using_k` and `k_jt[j][t]` becomes 0 |
| Preservation.LeftDishKeeps | include/microscopes/lda/model.hpp:205-217 | `m_k[k]` and `m` drop by exactly one, the dish leaves `using_k` exactly when that was its last table, and only then is the table's dish reset |
| Bookkeeping.LeftDish | include/microscopes/lda/model.hpp:205-217 | the tables, `n_jt`, `n_jtv`, `t_ji`, `n_k` and `n_kv` are unchanged, and so is the shape of `k_jt[j]` |
| Dishes.LeaveDish | include/microscopes/lda/model.hpp:210-215 | the counters are positive beforehand and the table total is kept with the dish's table count lowered |
| Franchise.State.CalcDishPosteriorT | include/microscopes/lda/model.hpp:221-226 | the only state change is `n_k` of the table's dish losing the table's size |
| Bookkeeping.DishPosteriorEffect | include/microscopes/lda/model.hpp:221-226 | nothing other than `n_k` changes |
| Franchise.State.SeatAtDish | include/microscopes/lda/model.hpp:276-300 | the new state is `SeatedAtDish` of the old: `m` and `m_k[k]` grow by one; only when `k` is the table's own dish do `n_k` and `n_kv` change, through the transfer loop |
| Bookkeeping.SeatedAtDish | include/microscopes/lda/model.hpp:276-300 | `m_k[k]` and `m` each grow by exactly one, and no table list, `k_jt`, `n_jt` or `n_jtv` changes |
| Dishes.JoinDish | include/microscopes/lda/model.hpp:278-279 | adding one to `m_k[k]` and `m` restores the table total, with no dish exempt |
| Transfer.MoveCounts | include/microscopes/lda/model.hpp:292-298 | the loop applies the table's entries in ascending word order, each draining its word's count (when the table had a dish) and adding the count under the count as key |
| Transfer.MoveRowFrame | include/microscopes/lda/model.hpp:292-298 | the transfer changes no entry of the dish row except the table's words and the table's counts |
| Transfer.MoveRowShifts | include/microscopes/lda/model.hpp:297 | for two tokens of word 5 the transfer takes 2 off word 5 and puts 2 on word 2 |
| Franchise.State.SamplingK | include/microscopes/lda/model.hpp:191-203 | the new state is `SampledDish` of the old; `m` stays the sum of `m_k` and keeps its value, and the table counters stay in step with the seating |
| Preservation.SampledDishKeeps | include/microscopes/lda/model.hpp:191-203 | for every sampled position, `m` stays the sum of `m_k` over the active dishes and keeps its value |
| Bookkeeping.SampledDish | include/microscopes/lda/model.hpp:191-203 | the tables, `n_jt`, `n_jtv` and `t_ji` are unchanged |
| Preservation.SampledDishEffect | include/microscopes/lda/model.hpp:196-202 | the dish counted is the sampled one or the smallest free id, which joins `using_k`, and its `m_k` grows by one |
| Preservation.JoinedDishKeeps | include/microscopes/lda/model.hpp:196-202 | joining the dish adds one to `m` and keeps it the sum of `m_k` |
| Bookkeeping.JoinedDish | include/microscopes/lda/model.hpp:196-202 | the tables, `n_jt`, `n_jtv` and `t_ji` are unchanged |
| Preservation.SampledDishMiscounts | include/microscopes/lda/model.hpp:276-284 | when an active dish other than the table's own is sampled and the old dish keeps other tables, `k_jt` is unchanged and `m_k` no longer counts the tables serving each dish |
| Preservation.SameTablesKeep | include/microscopes/lda/model.hpp:191-203 | a step that changes no table list, `n_jt` or `n_jtv` keeps them in step with the seating |

## Left out

- The posterior arithmetic is not modelled: the ratios `n_kv[k][v] / n_k[k]` that `calc_f_k` returns, `calc_table_posterior` and `calc_dish_posterior_w`, and the probability vector that `calc_dish_posterior_t` returns. These are float divisions and sums, and, in `calc_dish_posterior_t`, `log`/`lgamma` terms of an unfinished computation. The state changes they make are kept:
  - `calc_f_k` reads `n_kv[k][v]` through `std::map::operator[]`, inserting `v` with count 0 into every dish row that lacks it (`Franchise.State.CalcFk`);
  - `calc_dish_posterior_t` lowers `n_k` of the table's dish.
- `sample_discrete` and the random stream `rng_` are foreign code. The position each draw would return is a parameter of `SamplingT` and `SamplingK`, so the properties hold for every in-range draw.
- Franchise.State.SamplingT: requires `dishIndex < |using_k|` (after the token leaves), but the source's dish draw does not stay in that range.
  - `calc_dish_posterior_w` fills `p_k` for `i < p_k_map.size()`, and each `p_k_map[i]` inserts a missing key (model.hpp:394-397).
  - So `p_k` has `max(using_k) + 1` entries, and entry `i` is the weight of dish id `i`, not of position `i` of `using_k`.
  - Once a dish below the largest is freed, for example `remove_table` dropping dish 1 and leaving `using_k == [0, 2]` (model.hpp:446-456), a draw can be `|using_k|` or more. `using_k[topic_index]` at model.hpp:181 is then out of bounds, which aborts under the `_GLIBCXX_DEBUG` of line 1.
  - For an in-range position `i` the model takes `using_k[i]`, as the source does, although the weight drawn at `i` belonged to dish id `i`.
  - The table draw (`calc_table_posterior`) and `sampling_k`'s draw (`calc_dish_posterior_t`) have one weight per list entry, so their positions stay in range.
- `inference` is not modelled. After its `sampling_t` sweep it calls `sampling_k` on every active table of every document, the sentinel table 0 included (model.hpp:132-136).
  - On the first document, `leave_from_dish` takes `m_k[0]` from 1 to 0 and erases the sentinel from `using_k` (model.hpp:210-216).
  - `m` loses one there, and `seat_at_dish` adds it back (model.hpp:278).
  - On the next document, `m_k[0]` wraps from 0 to 2^64-1.
  - No invariant holds across such a sweep.
- `wordDist` divides counts by float totals and truncates the result into a `size_t` map. There is nothing about the bookkeeping to state.
- The console logging is not modelled, and neither are the unused declarations (the includes and `group_type`).
- `n_k` is a `float` in the source and a `real` here, so there is no rounding.
- `m`, `m_k`, `n_jt` and `n_jtv` are unbounded naturals here.
  - In a consistent state, the decrements of `leave_from_table` and `remove_table` are proved to act on positive values (`Preservation.CanLeaveHolds`).
  - So are those of `leave_from_dish` on an active table other than 0 (`Preservation.CanLeaveDishHolds`).
  - `sampling_k` as written does not keep `Consistent` (see `Preservation.SampledDishMiscounts`), so these proofs do not reach a state after a `sampling_k` call.
  - Their increments are not bounded by 2^64.
  - Only `n_kv`, which `seat_at_dish` can push out of step, uses the 64-bit wrap-around.
- Franchise.State.SamplingK: requires `t != 0` and that the table's dish is active, not 0 and has a positive `m_k`, and that `m` is positive. The source checks none of these. Two of them (`k > 0` and `m_k[k] > 0`) appear as commented-out asserts (model.hpp:208-209). With a dish of 0 it would decrement the sentinel's counters.
- Franchise.State.LeaveFromTable: requires `CanLeave`, which the source does not check.
  - `CanLeave` asks that the counters it decrements are positive, and that a seated token's table serves an active dish other than 0.
  - `Preservation.CanLeaveHolds` proves `CanLeave` in every consistent state.
  - The source does reach the excluded case after `sampling_k`. When `leave_from_dish` drops a dish's last table, it sets `k_jt[j][t] = 0` (model.hpp:215). `seat_at_dish` records the new dish only when it equals the old one (model.hpp:282-284), so the table stays active serving dish 0.
  - A later `leave_from_table` on one of its tokens then decrements `n_kv[0][v]` and `n_k[0]` (model.hpp:434-435).
  - When that empties the table, `remove_table` takes `m_k[0]` to 0 and erases the sentinel from `using_k` (model.hpp:450-454).
- Preservation.SampledDishKeeps: keeps only the table total. It does not claim that `m_k[k]` counts the tables serving `k`, because `seat_at_dish` as written breaks that; see `Preservation.SampledDishMiscounts`.
- Franchise.State.SamplingK: does not claim `Tallied`, unlike `Franchise.State.SamplingT`. As written, `seat_at_dish` does not move `n_k` and `n_kv` when the dish changes, and it keys `n_kv` by count when it does.
