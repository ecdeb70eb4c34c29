# Stakeholder-search TSP: a Dafny model of the pure core

The system solves a travelling salesman problem with a committee of
stakeholders. Each stakeholder runs a genetic algorithm on its own weighting of
distance and travel time. A coordinator runs the rounds: in every round it
collects each stakeholder's best tour, ranks the tours on the chair's weighted
table, and hands the best three on as seeds for the next round.

This project models the sequential core of that system and proves its
properties:

- `tsp.dfy` (module `Tsp`): tour cost (`total`) and its laws, `fitness`, the
  weighted table, and the loop that builds the lookup tables. Table entries
  are `real`. The distance between two cities is an uninterpreted function.
- `tspga.dfy` (module `TspGa`): the cascade crossover and its
  duplicate-resolution loop, which is a single-cycle cycle crossover.
  `contains_duplicates` and the parameter clamping of `create_tspga` are
  here too. Random draws are parameters.
- `committee.dfy` (module `Committee`): stakeholders, `add`,
  `recv_from_all` (once every reply is in), `find_top_solutions` and
  `get_best_solution`.
  - The leaderboard stores stakeholder positions, because the source stores
    stakeholder objects.
  - The per-stakeholder loop is a fold of a `Step` function.
  - The stable `list.sort` is a stable insertion sort.
- `tspserver.dfy` (module `TspServer`): `server_func` as a method.
  - It takes the connected names and every round's replies as inputs.
  - It returns the list of broadcast messages, the final committee, and how
    the run ends.
- `wrappers.dfy`: `Option`, for a stakeholder that has not reported yet.

## Model

| member | source | states |
|---|---|---|
| Tsp.TotalOf | tsp.py:181-188 | The accumulation loop returns the open path cost over consecutive 1-based city pairs plus the closing edge from the last city back to the first. |
| Tsp.TotalNonNegative | tsp.py:183-187 | Over a table with no negative entry every tour costs at least 0. |
| Tsp.TotalRotationInvariant | tsp.py:181-188 | Starting the same cyclic tour at any other city leaves its total unchanged. |
| Tsp.TotalReverseInvariant | tsp.py:181-188 | Over a symmetric table a tour and its reversal cost the same. |
| Tsp.PathCostSnoc | tsp.py:185-186 | Extending the tour by one city adds exactly the one new edge to the open path cost. |
| Tsp.WeightedTable | tsp.py:175-178 | The weighted table has the shape of its inputs, and each entry is `dw*D[i][j] + tw*T[i][j]`. |
| Tsp.WeightedTableSelectsFirst | tsp.py:175-178 | Weights (1, 0) give back the distance table unchanged. |
| Tsp.TotalLinear | tsp.py:175-188 | The total of a tour on the weighted table is `dw` times its distance total plus `tw` times its time total. |
| Tsp.Fitness | tsp.py:191-192 | Fitness is the reciprocal of the total: its product with the total is 1. A zero total gives the floating-point infinity. A positive total gives a positive fitness. |
| Tsp.FitnessAntitone | tsp.py:191-192 | Among non-negative totals, a strictly cheaper tour has a strictly larger fitness. |
| Tsp.FillRow | tsp.py:165-167 | One row of the double loop, with its chained assignments to `[i][j]` and `[j][i]`, takes both tables from the state before row `i` to the state before row `i + 1`. |
| Tsp.FilledEntries | tsp.py:164-167 | When the double loop ends, entry `[a][b]` holds `dist(max, min)` and the time entry is that distance times both cities' terrain factors. |
| Tsp.LookupShape | tsp.py:156-167 | The filled tables are symmetric. They agree with `dist` when `dist` is symmetric, and they have a zero diagonal when `dist(a, a)` is 0. |
| Tsp.CreateLookupTables | tsp.py:153-167 | The built distance and time tables are n×n and symmetric. Each time entry is the distance entry times the terrain of both cities. A zero self-distance gives a zero diagonal. |
| TspGa.ElemsCardinality | tspga.py:69 | The number of unique values is at most the length, and equals it exactly when no value repeats. |
| TspGa.ContainsDuplicates | tspga.py:68-69 | `contains_duplicates` holds exactly when some value occurs at two different positions. |
| TspGa.DuplicateIffOpen | tspga.py:98-100 | During resolution the child holds a duplicate exactly when the chain of visited positions has not closed. Once it closes, the child is a permutation of parent 1. |
| TspGa.ResolvingStep | tspga.py:98-100 | One pass of the loop visits one new position on the cycle of `p1⁻¹∘p2`, copies parent 2's gene there, and shrinks the set of unvisited positions by one. |
| TspGa.Resolved | tspga.py:98-100 | When the loop stops, the child is parent 2 on the cycle through the swap position and parent 1 elsewhere. An agreeing swap gene leaves parent 1 unchanged. |
| TspGa.CascadeChild | tspga.py:91-100 | The loop terminates after fewer passes than there are genes. The child is a permutation of parent 1 and equals the single-cycle crossover child. Every gene comes from one of the parents at that position, and the first overwrite is kept. Equal genes at the swap position give a clone of parent 1. |
| TspGa.CascadeCrossover | tspga.py:81-103 | One child per draw, each from two different parents, each a permutation of both its parents and equal to the cycle child. |
| TspGa.CreateTspGa | tspga.py:54-63 | `num_parents_mating` is `max(2, N/2)` and `parents_kept` is clamped to at most that. `NUM_GENS` is `10*N` and the population is 200. |
| TspGa.AsWrittenSwapMissesCycle | tspga.py:83-94 | With two parents the first swap position is 0 or 1. For parents that differ only on positions 2 and 3, every child is then a clone of parent 1. |
| TspGa.IntendedSwapReachesCycle | tspga.py:93-94 | When the swap position ranges over all gene positions, the same parents can produce parent 2. |
| Committee.NewCommittee | tspserver.py:60-65 | A fresh committee has no stakeholders, an empty board and a consistent name-length record. |
| Committee.Add | tspserver.py:68-70 | `add` appends exactly one stakeholder with no result and keeps every earlier one. It keeps `max_name_length` equal to the longest name registered. |
| Committee.LongestName | tspserver.py:70 | The recorded length bounds every name and is attained by some name; it is 0 for nobody. |
| Committee.ReceiveAll | tspserver.py:78-88 | After collecting, every stakeholder keeps its name and holds its own reply as last result. The board and the name record are untouched. |
| Committee.SortByCostPermutes | tspserver.py:120 | The sort keeps every board entry, as often as it occurs. |
| Committee.SortSortedIsIdentity | tspserver.py:120 | Sorting an ordered board changes nothing, so ties stay in place. |
| Committee.StepSkip | tspserver.py:108-113 | A tour equal to one already on the board leaves the board as it is. |
| Committee.StepReject | tspserver.py:117-119 | On a full board, a tour costing no less than the last entry is rejected (strict `<`), so an equal-cost later tour never displaces an entry. |
| Committee.StepAppendSorted | tspserver.py:114-120 | An unseen tour on a board with room is added and the board keeps all its promises. |
| Committee.StepReplaceSorted | tspserver.py:117-120 | A strictly cheaper unseen tour evicts the last entry of a full board and the board keeps all its promises. |
| Committee.SelectIsLeaderboard | tspserver.py:104-120 | After every prefix of stakeholders the board obeys all of its rules:<br>– at most `N` entries;<br>– tours pairwise different;<br>– ascending cost;<br>– equal-cost entries in stakeholder order;<br>– every tour seen so far is on the board, or the board is full and the tour costs at least the last entry. |
| Committee.StepKeepsTieBreak | tspserver.py:108-120 | One pass of the loop keeps two tie-break promises. Every board entry is the first stakeholder to report its tour. On a full board, a tour left off at the cost of the last entry lost only to equal-cost entries reported before it, because replacement needs a strict `<`. |
| Committee.SelectTieBreak | tspserver.py:104-120 | After every prefix of stakeholders the board keeps both tie-break promises. |
| Committee.FindTopSolutions | tspserver.py:104-122 | `top` is set to at most `N` stakeholders. The returned tours are exactly their last results, in board order. Stakeholders and name record are unchanged. |
| Committee.FindTopSolutionsRanks | tspserver.py:104-122 | The returned tours obey the leaderboard rules:<br>– pairwise different;<br>– ascending by total on the given table;<br>– equal-cost entries in stakeholder order;<br>– every report is returned, or the board is full and the report costs at least the last entry;<br>– non-empty when anybody reported, with the first entry a cheapest report. |
| Committee.FindTopTies | tspserver.py:104-122 | Each returned tour comes from the first stakeholder that reported it. On a full board, a report left off at the cut-off cost comes after every board entry of that cost. So of several equal-cost tours at the cut-off, the first reported is kept. |
| Committee.GetBestSolution | tspserver.py:96-100 | The result is the first board entry. The board is recomputed (for three entries) only when it is empty, and the recomputed first entry is a cheapest report. |
| Committee.RenderShortIsFaithful | tspserver.py:110 | For tours of at most 1000 cities, equal printed forms mean equal tours. |
| Committee.StepAsWrittenAgrees | tspserver.py:108-120 | For a reported tour of at most 1000 cities, one pass of the loop with the printed-form duplicate test leaves exactly the board that comparing tours leaves. |
| Committee.SelectAsWrittenAgrees | tspserver.py:104-120 | While every report has at most 1000 cities, the loop as written builds exactly the board of the loop that compares tours. |
| Committee.AsWrittenDropsDistinctLongTour | tspserver.py:104-120 | Two different 1001-city tours print alike. Over two stakeholders reporting them, with room for three, the loop as written ends with only the first on the board, while the loop comparing tours keeps both. |
| TspServer.Seeds | tspserver.py:199-205 | The seeds a round hands on are a function of its replies alone, and they obey the board rules of `RankingIsBoard`. |
| TspServer.RoundFromAnyState | tspserver.py:199-205 | Ranking a round does not depend on earlier boards: it gives what ranking the fresh reports gives. |
| TspServer.Connect | tspserver.py:171-176 | The accept loop registers one stakeholder per connected name, in order, none with a result. |
| TspServer.Schedule | tspserver.py:185-199 | The broadcast after `r` rounds has this shape:<br>– `init` first;<br>– `continue` with the previous round's seeds at each later even slot;<br>– `req_result` at every odd slot. |
| TspServer.ScheduleStep | tspserver.py:189-199 | One more round appends its command and `req_result` to the schedule of the rounds so far. |
| TspServer.StopAppended | tspserver.py:185-210 | After the rounds, `stop` is sent exactly once, last, and nothing before it is `stop`. |
| TspServer.BoardsStep | tspserver.py:205 | Recording one more round's seeds keeps every recorded round's seeds equal to the ranking of that round's replies. |
| TspServer.ScheduleSeeds | tspserver.py:189-205 | Every round after the first opens with `continue` carrying exactly the seeds ranked from the previous round's replies. |
| TspServer.RankingIsBoard | tspserver.py:104-122 | A round's seeds obey the board rules over that round's replies:<br>– at most three;<br>– pairwise different replies;<br>– ascending by cost;<br>– every reply among them or costing at least the last of a full board;<br>– non-empty when anybody replied. |
| TspServer.RankingPositions | tspserver.py:104-122 | Each seed is the reply of the stakeholder the new board names at that place, and that stakeholder is the first to have sent the tour. Equal-cost seeds keep the stakeholders' order. A reply left off a full board at the cut-off cost comes after every seed of that cost. |
| TspServer.RankingLeader | tspserver.py:96-122 | With anybody replying, the board's first stakeholder sent a cheapest reply. |
| TspServer.PlayRound | tspserver.py:197-205 | After a round every stakeholder holds its reply. The seeds are exactly those its replies rank (`Seeds`), whatever the earlier board held, so they obey the board rules. Seed `a` is `reply[top[a]]` for the new board `top`, with the tie-breaks of `RankingPositions`. With anybody connected, the board leads with a cheapest reply. |
| TspServer.PlayRounds | tspserver.py:185-207 | The round loop broadcasts the schedule and records for each round exactly the seeds its replies rank. The final board places those seeds as `RankingPositions` states. With nobody connected it stops in round one, when the round's report reads the first entry of an empty board. |
| TspServer.ServerFunc | tspserver.py:151-225 | The whole run has one of three shapes:<br>– zero rounds: only `stop` is sent, and the run fails when the best entry is read;<br>– nobody connected: the run fails after round one's `init` and `req_result`;<br>– otherwise: `init` first; every later round's `continue` carries exactly the seeds ranked from the round before's replies; `req_result` closes each round; one `stop` comes last; the winner sent a cheapest final reply, and is the first stakeholder to have sent the final round's leading seed. |

## Left out

- Sockets, `Listener`, `conn.send`/`recv`, and the busy-wait polling of `recv_from_all` are not modelled. The replies are inputs, and collection is modelled once every reply has arrived.
- `time.sleep`, the clock, console printing, `__str__`, and CSV logging are left out because they have no effect on the results. The one exception is the run failing when the report reads the first entry of an empty board, which is modelled as `Failed`.
- The pipe is left out: the model reports the winner unconditionally, as `get_best_solution` would when a pipe is given.
- `sqrt` distances and the normalisation by `np.linalg.norm(table, axis=1)` are floating point. Distance is an uninterpreted function and the normalised tables are inputs. That division broadcasts the vector of row norms along each row, so entry `[i][j]` is divided by the norm of row `j`: on the symmetric lookup tables this normalises columns. The normalised tables, and so `chair_weights`, are in general not symmetric, and nothing in the model assumes they are. `Tsp.TotalReverseInvariant` applies only to symmetric tables such as the raw distance and time tables. It does not apply to the chair's ranking.
- Floating-point rounding is not modelled: all table arithmetic is on `real`.
- `generate`, `load` and `plot_solution` in tsp.py, and the `TSP` class, are file I/O, randomness and plotting.
- The PyGAD engine is a foreign library: selection, mutation, generations and `on_generation` logging.
- The retry loop `while p2 == p1` is not modelled: each draw carries a `p2` already different from `p1`. With a single parent that loop never ends.
- client.py, agent.py, server.py, log.py, stake.py, main.py and tspgen.py are process orchestration, entry points and instance generation, and are not part of this model.
- Tsp.Total: city numbers outside `1..n` are not modelled. numpy would accept 0 and negative numbers through negative indexing, but every tour the system builds draws its genes from `1..n`.
- Committee.GetBestSolution: requires a non-empty board or a reported, non-empty committee. The source raises an error otherwise. `ServerFunc` models that error as `Failed`.
- Committee.SelectIsLeaderboard: does not say which of several equal-cost tours at the cut-off of a full board stays, to keep its proof small. `Committee.SelectTieBreak` states it for the same boards.
- Committee.FindTopSolutionsRanks: does not say which of several equal-cost tours at the cut-off is returned. `Committee.FindTopTies` states it for the same call.
- TspServer.RankingIsBoard: `Board` describes the seeds by their tours alone. It leaves open which of several equal-cost tours at the cut-off is kept, and in what order equal-cost seeds come, because both depend on stakeholder positions. `RankingPositions` and `Committee.FindTopTies` state those on positions, and `Seeds` fixes the seeds exactly.

## Findings

| source | as written | input that shows it | evidently intended | confidence | as-written member | corrected member |
|---|---|---|---|---|---|---|
| tspga.py:83-94 | The first swap position is `random.randint(0, N)` with `N = len(parents) - 1`, so it is bounded by the number of parents, not of genes. | Two parents `[1,2,3,4]` and `[1,2,4,3]`: every child is a clone of parent 1. | A swap position drawn from all gene positions. | medium, not executed | TspGa.AsWrittenSwapMissesCycle | TspGa.IntendedSwapReachesCycle |
| tspserver.py:110 | The duplicate test compares `np.array2string` forms. numpy prints arrays of more than 1000 items as their first and last three. | Two 1001-city tours that differ only at positions 500 and 501. | Tours compared by value. | medium, not executed | Committee.AsWrittenDropsDistinctLongTour | Committee.SelectAsWrittenAgrees |

The rest of the model uses the corrected forms. `ValidDraws` draws the swap position from the gene positions. `Step` compares tours as sequences. `SelectAsWrittenAgrees` shows that the two loops agree on every input of tours of at most 1000 cities.
