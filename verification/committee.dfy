/** The coordinator's view of the stakeholders (class `Committee` of
    tspserver.py): registration and the incremental top-N leaderboard.

    A stakeholder record keeps its name and its last reported tour; the
    connection it also holds is not modelled. The leaderboard `top` holds
    stakeholder OBJECTS in the code, compared by identity; here it holds
    their positions in the stakeholder list. */
module Committee {
  import opened Wrappers
  import Tsp

  type Tour = seq<int>

  datatype Stakeholder = Stakeholder(name: string, lastResult: Option<Tour>)

  datatype Committee = Committee(stakeholders: seq<Stakeholder>, maxNameLength: nat, top: seq<nat>)

  /** An empty committee: nobody registered, no leaderboard. */
  function NewCommittee(): (c: Committee)
    ensures Valid(c) && |c.stakeholders| == 0 && c.top == []
  {
    Committee([], 0, [])
  }

  /** The longest name among the stakeholders, 0 for none. */
  function LongestName(s: seq<Stakeholder>): (r: nat)
    ensures forall i :: 0 <= i < |s| ==> |s[i].name| <= r
    ensures |s| > 0 ==> exists i :: 0 <= i < |s| && |s[i].name| == r
    ensures |s| == 0 ==> r == 0
  {
    if |s| == 0 then 0
    else
      var m := LongestName(s[..|s| - 1]);
      var l := |s[|s| - 1].name|;
      if m < l then l else m
  }

  /** All positions in `xs` index a list of length `n`. */
  predicate Indices(xs: seq<nat>, n: nat) {
    forall a :: 0 <= a < |xs| ==> xs[a] < n
  }

  /** The committee's bookkeeping is consistent: the recorded name length is
      the longest registered name, and the leaderboard names registered
      stakeholders. */
  predicate Valid(c: Committee) {
    c.maxNameLength == LongestName(c.stakeholders) && Indices(c.top, |c.stakeholders|)
  }

  /** `add`: register one more stakeholder, with no result yet. */
  function Add(c: Committee, name: string): (c': Committee)
    ensures |c'.stakeholders| == |c.stakeholders| + 1
    ensures forall j :: 0 <= j < |c.stakeholders| ==> c'.stakeholders[j] == c.stakeholders[j]
    ensures c'.stakeholders[|c.stakeholders|] == Stakeholder(name, None)
    ensures c'.top == c.top
    ensures Valid(c) ==> Valid(c')
  {
    var l := |name|;
    var c' := Committee(c.stakeholders + [Stakeholder(name, None)],
                        if c.maxNameLength < l then l else c.maxNameLength,
                        c.top);
    c'
  }

  /** Stakeholder lists that agree on every name have the same longest name. */
  lemma {:induction false} LongestNameOfNames(s: seq<Stakeholder>, t: seq<Stakeholder>)
    requires |s| == |t| && forall j :: 0 <= j < |s| ==> s[j].name == t[j].name
    ensures LongestName(s) == LongestName(t)
  {
    if |s| > 0 {
      LongestNameOfNames(s[..|s| - 1], t[..|t| - 1]);
    }
  }

  /** `recv_from_all`, once every stakeholder has answered: each stakeholder's
      last result becomes its reply of this round. */
  function ReceiveAll(c: Committee, reply: seq<Tour>): (c': Committee)
    requires |reply| == |c.stakeholders|
    ensures |c'.stakeholders| == |c.stakeholders|
    ensures forall j :: 0 <= j < |reply| ==>
      c'.stakeholders[j].name == c.stakeholders[j].name && c'.stakeholders[j].lastResult == Some(reply[j])
    ensures c'.top == c.top && c'.maxNameLength == c.maxNameLength
    ensures Valid(c) ==> Valid(c')
  {
    var s := seq(|reply|, j requires 0 <= j < |reply| => Stakeholder(c.stakeholders[j].name, Some(reply[j])));
    LongestNameOfNames(c.stakeholders, s);
    Committee(s, c.maxNameLength, c.top)
  }

  // ---------------------------------------------------------------------
  // The stable sort `top.sort(key=...)`, on positions keyed by `cost`.

  predicate Sorted(cost: seq<real>, xs: seq<nat>)
    requires Indices(xs, |cost|)
  {
    forall a, b :: 0 <= a < b < |xs| ==> cost[xs[a]] <= cost[xs[b]]
  }

  /** Where a stable insertion puts `x` into the ordered `xs`: after every
      entry that costs no more than `x`, before every dearer one. */
  function InsertPos(cost: seq<real>, xs: seq<nat>, x: nat): (p: nat)
    requires Indices(xs, |cost|) && x < |cost| && Sorted(cost, xs)
    ensures p <= |xs|
    ensures forall a :: 0 <= a < p ==> cost[xs[a]] <= cost[x]
    ensures forall a :: p <= a < |xs| ==> cost[x] < cost[xs[a]]
  {
    if |xs| == 0 then 0
    else if cost[xs[|xs| - 1]] <= cost[x] then |xs|
    else InsertPos(cost, xs[..|xs| - 1], x)
  }

  /** The step of a stable insertion sort: `x` placed into the ordered `xs`. */
  function Insert(cost: seq<real>, xs: seq<nat>, x: nat): (r: seq<nat>)
    requires Indices(xs, |cost|) && x < |cost| && Sorted(cost, xs)
    ensures |r| == |xs| + 1 && Indices(r, |cost|)
    ensures Sorted(cost, r)
  {
    var p := InsertPos(cost, xs, x);
    SplicePreservesOrder(cost, xs, x, p);
    xs[..p] + [x] + xs[p..]
  }

  /** Splicing `x` in at a position between the cheaper-or-equal and the
      dearer entries keeps the list ordered. */
  lemma SplicePreservesOrder(cost: seq<real>, xs: seq<nat>, x: nat, p: nat)
    requires Indices(xs, |cost|) && x < |cost| && Sorted(cost, xs) && p <= |xs|
    requires forall a :: 0 <= a < p ==> cost[xs[a]] <= cost[x]
    requires forall a :: p <= a < |xs| ==> cost[x] < cost[xs[a]]
    ensures var r := xs[..p] + [x] + xs[p..];
      && |r| == |xs| + 1 && Indices(r, |cost|)
      && multiset(r) == multiset(xs) + multiset{x}
      && Sorted(cost, r)
  {
    var r := xs[..p] + [x] + xs[p..];
    assert xs == xs[..p] + xs[p..];
    forall a | 0 <= a < |r|
      ensures r[a] == if a < p then xs[a] else if a == p then x else xs[a - 1]
    {
    }
    assert Indices(r, |cost|);
    forall a, b | 0 <= a < b < |r| ensures cost[r[a]] <= cost[r[b]] {
      if b < p || a > p {
      } else if a == p {
      } else if b == p {
      } else {
        assert cost[xs[a]] <= cost[x] < cost[xs[b - 1]];
      }
    }
  }

  /** Where each entry lands when `x` is inserted at `InsertPos`. */
  lemma InsertShape(cost: seq<real>, xs: seq<nat>, x: nat)
    requires Indices(xs, |cost|) && x < |cost| && Sorted(cost, xs)
    ensures var p, r := InsertPos(cost, xs, x), Insert(cost, xs, x);
      && r[p] == x
      && (forall a :: 0 <= a < p ==> r[a] == xs[a])
      && (forall a :: p <= a < |xs| ==> r[a + 1] == xs[a])
  {
  }

  /** Stable sort by cost. */
  function SortByCost(cost: seq<real>, xs: seq<nat>): (r: seq<nat>)
    requires Indices(xs, |cost|)
    ensures |r| == |xs| && Indices(r, |cost|)
    ensures Sorted(cost, r)
  {
    if |xs| == 0 then []
    else
      var init := xs[..|xs| - 1];
      assert xs == init + [xs[|xs| - 1]];
      Insert(cost, SortByCost(cost, init), xs[|xs| - 1])
  }

  /** The sort is a permutation: it keeps every entry, as often as it occurs. */
  lemma {:induction false} SortByCostPermutes(cost: seq<real>, xs: seq<nat>)
    requires Indices(xs, |cost|)
    ensures multiset(SortByCost(cost, xs)) == multiset(xs)
  {
    if |xs| > 0 {
      var init, x := xs[..|xs| - 1], xs[|xs| - 1];
      assert xs == init + [x];
      SortByCostPermutes(cost, init);
      var sorted := SortByCost(cost, init);
      SplicePreservesOrder(cost, sorted, x, InsertPos(cost, sorted, x));
    }
  }

  /** Sorting an ordered list leaves it as it is. */
  lemma {:induction false} SortSortedIsIdentity(cost: seq<real>, xs: seq<nat>)
    requires Indices(xs, |cost|) && Sorted(cost, xs)
    ensures SortByCost(cost, xs) == xs
  {
    if |xs| > 0 {
      var init := xs[..|xs| - 1];
      SortSortedIsIdentity(cost, init);
      assert xs == init + [xs[|xs| - 1]];
    }
  }

  // ---------------------------------------------------------------------
  // `find_top_solutions` as a fold over the stakeholder list.

  /** Leaderboard entries hold pairwise different tours. */
  predicate DistinctSolutions(sols: seq<Tour>, xs: seq<nat>)
    requires Indices(xs, |sols|)
  {
    forall a, b :: 0 <= a < b < |xs| ==> sols[xs[a]] != sols[xs[b]]
  }

  /** Entries of equal cost appear in the order their stakeholders were listed. */
  predicate FirstSeenTies(cost: seq<real>, xs: seq<nat>)
    requires Indices(xs, |cost|)
  {
    forall a, b :: 0 <= a < b < |xs| && cost[xs[a]] == cost[xs[b]] ==> xs[a] < xs[b]
  }

  /** Some entry of `xs` holds tour `v`. */
  predicate Holds(sols: seq<Tour>, xs: seq<nat>, v: Tour)
    requires Indices(xs, |sols|)
  {
    exists a :: 0 <= a < |xs| && sols[xs[a]] == v
  }

  /** Equal tours have equal cost: the cost is a function of the tour. */
  predicate CostOfTour(sols: seq<Tour>, cost: seq<real>) {
    |sols| == |cost| && forall a, b :: 0 <= a < |sols| && 0 <= b < |sols| && sols[a] == sols[b] ==> cost[a] == cost[b]
  }

  /** Two occurrences of one tour have one cost. */
  lemma SameCost(sols: seq<Tour>, cost: seq<real>, a: nat, b: nat)
    requires CostOfTour(sols, cost) && a < |sols| && b < |sols| && sols[a] == sols[b]
    ensures cost[a] == cost[b]
  {
  }

  /** One pass of the loop body for stakeholder `i`: skip a tour already on
      the board; otherwise append while there is room, or replace the last
      entry when strictly cheaper; then sort. */
  function Step(sols: seq<Tour>, cost: seq<real>, n: nat, top: seq<nat>, i: nat): (r: seq<nat>)
    requires |sols| == |cost| && i < |sols| && n >= 1 && Indices(top, |sols|)
    ensures Indices(r, |sols|)
    ensures |top| <= n ==> |r| <= n
  {
    var unseen := forall a :: 0 <= a < |top| ==> sols[top[a]] != sols[i];
    var top' :=
      if !unseen then top
      else if |top| < n then top + [i]
      else if cost[i] < cost[top[n - 1]] then top[..n - 1] + top[n..] + [i]
      else top;
    SortByCost(cost, top')
  }

  /** The leaderboard after the first `k` stakeholders. */
  function Select(sols: seq<Tour>, cost: seq<real>, n: nat, k: nat): (r: seq<nat>)
    requires |sols| == |cost| && k <= |sols| && n >= 1
    ensures Indices(r, |sols|) && |r| <= n
  {
    if k == 0 then [] else Step(sols, cost, n, Select(sols, cost, n, k - 1), k - 1)
  }

  /** What the board promises after the first `k` stakeholders: at most `n`
      entries, all among them, ascending by cost, pairwise different tours,
      ties in first-seen order, and every tour seen is either on the board or
      (on a full board) no cheaper than the last entry. */
  predicate Leaderboard(sols: seq<Tour>, cost: seq<real>, n: nat, k: nat, top: seq<nat>)
    requires |sols| == |cost| && k <= |sols| && n >= 1
  {
    && |top| <= n
    && Indices(top, k)
    && Sorted(cost, top)
    && DistinctSolutions(sols, top)
    && FirstSeenTies(cost, top)
    && forall j :: 0 <= j < k ==> Holds(sols, top, sols[j]) || (|top| == n && cost[j] >= cost[top[n - 1]])
  }

  /** Inserting a new, later, unseen tour keeps tours distinct and ties in
      first-seen order. */
  lemma InsertFresh(sols: seq<Tour>, cost: seq<real>, base: seq<nat>, i: nat)
    requires |sols| == |cost| && i < |sols| && Indices(base, |sols|)
    requires Sorted(cost, base) && DistinctSolutions(sols, base) && FirstSeenTies(cost, base)
    requires forall a :: 0 <= a < |base| ==> base[a] < i && sols[base[a]] != sols[i]
    ensures DistinctSolutions(sols, Insert(cost, base, i)) && FirstSeenTies(cost, Insert(cost, base, i))
  {
    SpliceFresh(sols, cost, base, i, InsertPos(cost, base, i));
  }

  lemma SpliceFresh(sols: seq<Tour>, cost: seq<real>, base: seq<nat>, i: nat, p: nat)
    requires |sols| == |cost| && i < |sols| && Indices(base, |sols|) && p <= |base|
    requires DistinctSolutions(sols, base) && FirstSeenTies(cost, base)
    requires forall a :: 0 <= a < |base| ==> base[a] < i && sols[base[a]] != sols[i]
    requires forall a :: p <= a < |base| ==> cost[i] < cost[base[a]]
    ensures var r := base[..p] + [i] + base[p..];
      Indices(r, |sols|) && DistinctSolutions(sols, r) && FirstSeenTies(cost, r)
  {
    var r := base[..p] + [i] + base[p..];
    forall a | 0 <= a < |r|
      ensures r[a] == if a < p then base[a] else if a == p then i else base[a - 1]
    {
    }
    forall a, b | 0 <= a < b < |r|
      ensures sols[r[a]] != sols[r[b]] && (cost[r[a]] == cost[r[b]] ==> r[a] < r[b])
    {
      if b < p {
      } else if a > p {
      } else if a == p {
        assert cost[i] < cost[base[b - 1]];
      } else if b == p {
      } else {
      }
    }
  }

  /** One pass of the loop, for the `k`-th stakeholder, keeps the
      leaderboard's promises. */
  lemma StepKeepsLeaderboard(sols: seq<Tour>, cost: seq<real>, n: nat, k: nat, top: seq<nat>)
    requires CostOfTour(sols, cost) && 0 < k <= |sols| && n >= 1
    requires Leaderboard(sols, cost, n, k - 1, top)
    ensures Leaderboard(sols, cost, n, k, Step(sols, cost, n, top, k - 1))
  {
    var i := k - 1;
    if exists a :: 0 <= a < |top| && sols[top[a]] == sols[i] {
      StepSkip(sols, cost, n, i, top);
    } else if |top| < n {
      StepAppendSorted(sols, cost, n, i, top);
    } else if cost[i] < cost[top[n - 1]] {
      StepReplaceSorted(sols, cost, n, i, top);
    } else {
      StepReject(sols, cost, n, i, top);
    }
  }

  /** A tour already on the board leaves the board as it is. */
  lemma StepSkip(sols: seq<Tour>, cost: seq<real>, n: nat, i: nat, top: seq<nat>)
    requires CostOfTour(sols, cost) && i < |sols| && n >= 1
    requires Leaderboard(sols, cost, n, i, top)
    requires exists a :: 0 <= a < |top| && sols[top[a]] == sols[i]
    ensures Step(sols, cost, n, top, i) == top
    ensures Leaderboard(sols, cost, n, i + 1, top)
  {
    SortSortedIsIdentity(cost, top);
  }

  /** A tour that costs no less than the last entry of a full board is
      rejected: the replacement test is a strict `<`. */
  lemma StepReject(sols: seq<Tour>, cost: seq<real>, n: nat, i: nat, top: seq<nat>)
    requires CostOfTour(sols, cost) && i < |sols| && n >= 1
    requires Leaderboard(sols, cost, n, i, top) && |top| == n && cost[i] >= cost[top[n - 1]]
    ensures Step(sols, cost, n, top, i) == top
    ensures Leaderboard(sols, cost, n, i + 1, top)
  {
    SortSortedIsIdentity(cost, top);
  }

  /** Appending to a board with room and sorting is inserting in order. */
  lemma StepAppendSorted(sols: seq<Tour>, cost: seq<real>, n: nat, i: nat, top: seq<nat>)
    requires CostOfTour(sols, cost) && i < |sols| && n >= 1
    requires Leaderboard(sols, cost, n, i, top) && |top| < n
    requires forall a :: 0 <= a < |top| ==> sols[top[a]] != sols[i]
    ensures Leaderboard(sols, cost, n, i + 1, Step(sols, cost, n, top, i))
  {
    SortSortedIsIdentity(cost, top);
    assert (top + [i])[..|top|] == top;
    assert Step(sols, cost, n, top, i) == Insert(cost, top, i);
    StepAppend(sols, cost, n, i, top);
  }

  /** Replacing the last entry of a full board and sorting is inserting in
      order into the rest. */
  lemma StepReplaceSorted(sols: seq<Tour>, cost: seq<real>, n: nat, i: nat, top: seq<nat>)
    requires CostOfTour(sols, cost) && i < |sols| && n >= 1
    requires Leaderboard(sols, cost, n, i, top) && |top| == n && cost[i] < cost[top[n - 1]]
    requires forall a :: 0 <= a < |top| ==> sols[top[a]] != sols[i]
    ensures Leaderboard(sols, cost, n, i + 1, Step(sols, cost, n, top, i))
  {
    var init := top[..n - 1];
    assert top[..n - 1] + top[n..] + [i] == init + [i];
    StepReplace(sols, cost, n, i, top);
    SortSortedIsIdentity(cost, init);
    assert (init + [i])[..|init|] == init;
    assert Step(sols, cost, n, top, i) == Insert(cost, init, i);
  }

  /** An unseen tour on a board with room is inserted in order. */
  lemma StepAppend(sols: seq<Tour>, cost: seq<real>, n: nat, k: nat, top: seq<nat>)
    requires CostOfTour(sols, cost) && k < |sols| && n >= 1
    requires Leaderboard(sols, cost, n, k, top) && |top| < n
    requires forall a :: 0 <= a < |top| ==> sols[top[a]] != sols[k]
    ensures Leaderboard(sols, cost, n, k + 1, Insert(cost, top, k))
  {
    var r := Insert(cost, top, k);
    InsertFresh(sols, cost, top, k);
    InsertBelow(cost, top, k, k + 1);
    InsertMembers(sols, cost, top, k);
    forall j | 0 <= j < k + 1 ensures Holds(sols, r, sols[j]) {
      if j < k {
        assert Holds(sols, top, sols[j]);
      }
    }
  }

  /** Inserting keeps every entry below a bound the entries and the new one
      are already below. */
  lemma InsertBelow(cost: seq<real>, xs: seq<nat>, x: nat, bound: nat)
    requires Indices(xs, |cost|) && x < |cost| && Sorted(cost, xs)
    requires Indices(xs, bound) && x < bound
    ensures Indices(Insert(cost, xs, x), bound)
  {
    var p, r := InsertPos(cost, xs, x), Insert(cost, xs, x);
    InsertShape(cost, xs, x);
    forall a | 0 <= a < |r| ensures r[a] < bound {
      if a > p { assert r[(a - 1) + 1] == xs[a - 1]; }
    }
  }

  /** Inserting keeps every cost at most a cap the entries and the new one
      already respect. */
  lemma InsertCapped(cost: seq<real>, xs: seq<nat>, x: nat, cap: real)
    requires Indices(xs, |cost|) && x < |cost| && Sorted(cost, xs)
    requires (forall a :: 0 <= a < |xs| ==> cost[xs[a]] <= cap) && cost[x] <= cap
    ensures forall a :: 0 <= a < |Insert(cost, xs, x)| ==> cost[Insert(cost, xs, x)[a]] <= cap
  {
    var p, r := InsertPos(cost, xs, x), Insert(cost, xs, x);
    InsertShape(cost, xs, x);
    forall a | 0 <= a < |r| ensures cost[r[a]] <= cap {
      if a > p { assert r[(a - 1) + 1] == xs[a - 1]; }
    }
  }

  /** The inserted list holds the new entry's tour and every tour it held. */
  lemma InsertMembers(sols: seq<Tour>, cost: seq<real>, xs: seq<nat>, x: nat)
    requires |sols| == |cost| && Indices(xs, |cost|) && x < |cost| && Sorted(cost, xs)
    ensures Holds(sols, Insert(cost, xs, x), sols[x])
    ensures forall v :: Holds(sols, xs, v) ==> Holds(sols, Insert(cost, xs, x), v)
  {
    var p, r := InsertPos(cost, xs, x), Insert(cost, xs, x);
    InsertShape(cost, xs, x);
    assert r[p] == x;
    forall v | Holds(sols, xs, v) ensures Holds(sols, r, v) {
      var b :| 0 <= b < |xs| && sols[xs[b]] == v;
      if b < p { assert r[b] == xs[b]; } else { assert r[b + 1] == xs[b]; }
    }
  }

  /** An unseen tour strictly cheaper than the last entry of a full board
      evicts that entry and is inserted in order. */
  lemma StepReplace(sols: seq<Tour>, cost: seq<real>, n: nat, k: nat, top: seq<nat>)
    requires CostOfTour(sols, cost) && k < |sols| && n >= 1
    requires Leaderboard(sols, cost, n, k, top) && |top| == n && cost[k] < cost[top[n - 1]]
    requires forall a :: 0 <= a < |top| ==> sols[top[a]] != sols[k]
    ensures Indices(top[..n - 1], |sols|) && Sorted(cost, top[..n - 1])
    ensures Leaderboard(sols, cost, n, k + 1, Insert(cost, top[..n - 1], k))
  {
    var init := top[..n - 1];
    assert forall a :: 0 <= a < |init| ==> init[a] == top[a];
    InsertFresh(sols, cost, init, k);
    ReplaceCovers(sols, cost, n, k, top);
  }

  /** After the eviction every tour seen is on the board or no cheaper than
      its new last entry. */
  lemma ReplaceCovers(sols: seq<Tour>, cost: seq<real>, n: nat, k: nat, top: seq<nat>)
    requires CostOfTour(sols, cost) && k < |sols| && n >= 1
    requires Leaderboard(sols, cost, n, k, top) && |top| == n && cost[k] < cost[top[n - 1]]
    ensures Indices(top[..n - 1], |sols|) && Sorted(cost, top[..n - 1])
    ensures var r := Insert(cost, top[..n - 1], k);
      && Indices(r, k + 1)
      && forall j :: 0 <= j < k + 1 ==> Holds(sols, r, sols[j]) || (|r| == n && cost[j] >= cost[r[n - 1]])
  {
    var init := top[..n - 1];
    var evicted := top[n - 1];
    assert forall a :: 0 <= a < |init| ==> init[a] == top[a];
    var r := Insert(cost, init, k);
    InsertBelow(cost, init, k, k + 1);
    InsertCapped(cost, init, k, cost[evicted]);
    InsertMembers(sols, cost, init, k);
    assert |r| == n && cost[r[n - 1]] <= cost[evicted];
    forall j | 0 <= j < k + 1 ensures Holds(sols, r, sols[j]) || cost[j] >= cost[r[n - 1]] {
      if j < k {
        EvictionKeeps(sols, cost, n, top, r, j);
      }
    }
  }

  /** A tour covered by a full board stays covered once the last entry is
      evicted, as long as the new last entry costs no more than the evicted
      one. */
  lemma EvictionKeeps(sols: seq<Tour>, cost: seq<real>, n: nat, top: seq<nat>, r: seq<nat>, j: nat)
    requires CostOfTour(sols, cost) && n >= 1 && |top| == n && Indices(top, |sols|)
    requires Indices(r, |sols|) && |r| == n && j < |sols| && cost[r[n - 1]] <= cost[top[n - 1]]
    requires forall v :: Holds(sols, top[..n - 1], v) ==> Holds(sols, r, v)
    requires Holds(sols, top, sols[j]) || cost[j] >= cost[top[n - 1]]
    ensures Holds(sols, r, sols[j]) || cost[j] >= cost[r[n - 1]]
  {
    if Holds(sols, top, sols[j]) {
      var b :| 0 <= b < |top| && sols[top[b]] == sols[j];
      if b < n - 1 {
        assert top[..n - 1][b] == top[b];
      } else {
        SameCost(sols, cost, j, top[n - 1]);
      }
    }
  }

  /** Every board entry is the first stakeholder to report its tour. */
  predicate FirstOccurrences(sols: seq<Tour>, top: seq<nat>)
    requires Indices(top, |sols|)
  {
    forall a, j :: 0 <= a < |top| && 0 <= j < top[a] ==> sols[j] != sols[top[a]]
  }

  /** A full board passed over a tour as dear as its last entry only in
      favour of entries seen before it: the replacement test is a strict
      `<`, so the first of several equal-cost tours at the cut-off stays. */
  predicate CutoffTies(sols: seq<Tour>, cost: seq<real>, n: nat, k: nat, top: seq<nat>)
    requires |sols| == |cost| && k <= |sols| && n >= 1 && Indices(top, |sols|)
  {
    |top| == n ==>
      forall j, a ::
        0 <= j < k && 0 <= a < |top| && !Holds(sols, top, sols[j]) && cost[j] == cost[top[n - 1]] && cost[top[a]] == cost[j]
        ==> top[a] < j
  }

  /** The tie-break promises of the board after `k` stakeholders. */
  predicate TieBreak(sols: seq<Tour>, cost: seq<real>, n: nat, k: nat, top: seq<nat>)
    requires |sols| == |cost| && k <= |sols| && n >= 1 && Indices(top, |sols|)
  {
    FirstOccurrences(sols, top) && CutoffTies(sols, cost, n, k, top)
  }

  /** One pass of the loop keeps the tie-break promises. */
  lemma StepKeepsTieBreak(sols: seq<Tour>, cost: seq<real>, n: nat, k: nat, top: seq<nat>)
    requires CostOfTour(sols, cost) && 0 < k <= |sols| && n >= 1
    requires Leaderboard(sols, cost, n, k - 1, top) && TieBreak(sols, cost, n, k - 1, top)
    ensures TieBreak(sols, cost, n, k, Step(sols, cost, n, top, k - 1))
  {
    var i := k - 1;
    if exists a :: 0 <= a < |top| && sols[top[a]] == sols[i] {
      StepSkip(sols, cost, n, i, top);
      TieBreakKept(sols, cost, n, i, top);
    } else if |top| < n {
      TieBreakAppend(sols, cost, n, i, top);
    } else if cost[i] < cost[top[n - 1]] {
      TieBreakReplace(sols, cost, n, i, top);
    } else {
      StepReject(sols, cost, n, i, top);
      TieBreakKept(sols, cost, n, i, top);
    }
  }

  /** A board left as it is keeps its promises one stakeholder later: all
      its entries were seen before the new one. */
  lemma TieBreakKept(sols: seq<Tour>, cost: seq<real>, n: nat, i: nat, top: seq<nat>)
    requires |sols| == |cost| && i < |sols| && n >= 1 && Indices(top, i)
    requires TieBreak(sols, cost, n, i, top)
    ensures TieBreak(sols, cost, n, i + 1, top)
  {
  }

  /** Sorting keeps exactly the entries it was given. */
  lemma SortByCostMembers(cost: seq<real>, xs: seq<nat>)
    requires Indices(xs, |cost|)
    ensures forall x :: x in SortByCost(cost, xs) <==> x in xs
  {
    SortByCostPermutes(cost, xs);
    assert forall x :: x in SortByCost(cost, xs) <==> x in multiset(SortByCost(cost, xs));
  }

  /** An unseen tour added to a board with room is a first occurrence, and
      no earlier tour is off the board. */
  lemma TieBreakAppend(sols: seq<Tour>, cost: seq<real>, n: nat, i: nat, top: seq<nat>)
    requires CostOfTour(sols, cost) && i < |sols| && n >= 1
    requires Leaderboard(sols, cost, n, i, top) && TieBreak(sols, cost, n, i, top) && |top| < n
    requires forall a :: 0 <= a < |top| ==> sols[top[a]] != sols[i]
    ensures TieBreak(sols, cost, n, i + 1, Step(sols, cost, n, top, i))
  {
    var r := Step(sols, cost, n, top, i);
    SortByCostMembers(cost, top + [i]);
    assert forall j :: 0 <= j < i ==> Holds(sols, top, sols[j]);
    AppendKeepsTieBreak(sols, i, top, r);
  }

  /** The board `r` holding exactly `top` and `i` keeps first occurrences
      and holds every tour seen so far. */
  lemma AppendKeepsTieBreak(sols: seq<Tour>, i: nat, top: seq<nat>, r: seq<nat>)
    requires i < |sols| && Indices(top, |sols|) && Indices(r, |sols|)
    requires FirstOccurrences(sols, top)
    requires forall j :: 0 <= j < i ==> Holds(sols, top, sols[j])
    requires forall a :: 0 <= a < |top| ==> sols[top[a]] != sols[i]
    requires forall x :: x in r <==> x in top + [i]
    ensures FirstOccurrences(sols, r)
    ensures forall j :: 0 <= j <= i ==> Holds(sols, r, sols[j])
  {
    forall a, j | 0 <= a < |r| && 0 <= j < r[a] ensures sols[j] != sols[r[a]] {
      assert r[a] in top + [i];
      if r[a] != i {
        var b :| 0 <= b < |top| && top[b] == r[a];
      }
    }
    forall j | 0 <= j <= i ensures Holds(sols, r, sols[j]) {
      var x := i;
      if j < i {
        var b :| 0 <= b < |top| && sols[top[b]] == sols[j];
        x := top[b];
      }
      assert x in top + [i];
      var p :| 0 <= p < |r| && r[p] == x;
    }
  }

  /** A strictly cheaper unseen tour replacing the last entry of a full
      board is a first occurrence, and entries it leaves tied at the cut-off
      were seen before any tour passed over. */
  lemma TieBreakReplace(sols: seq<Tour>, cost: seq<real>, n: nat, i: nat, top: seq<nat>)
    requires CostOfTour(sols, cost) && i < |sols| && n >= 1
    requires Leaderboard(sols, cost, n, i, top) && TieBreak(sols, cost, n, i, top)
    requires |top| == n && cost[i] < cost[top[n - 1]]
    requires forall a :: 0 <= a < |top| ==> sols[top[a]] != sols[i]
    ensures TieBreak(sols, cost, n, i + 1, Step(sols, cost, n, top, i))
  {
    ReplaceKeepsTieBreak(sols, cost, n, i, top);
    assert top[..n - 1] + top[n..] + [i] == top[..n - 1] + [i];
  }

  /** Sorting the board less its last entry, plus `i`, keeps the tie-break
      promises. */
  lemma ReplaceKeepsTieBreak(sols: seq<Tour>, cost: seq<real>, n: nat, i: nat, top: seq<nat>)
    requires CostOfTour(sols, cost) && i < |sols| && n >= 1
    requires Leaderboard(sols, cost, n, i, top) && TieBreak(sols, cost, n, i, top)
    requires |top| == n && cost[i] < cost[top[n - 1]]
    requires forall a :: 0 <= a < |top| ==> sols[top[a]] != sols[i]
    ensures Indices(top[..n - 1] + [i], |sols|)
    ensures TieBreak(sols, cost, n, i + 1, SortByCost(cost, top[..n - 1] + [i]))
  {
    var r := SortByCost(cost, top[..n - 1] + [i]);
    SortByCostMembers(cost, top[..n - 1] + [i]);
    ReplaceFirstSeen(sols, cost, n, i, top);
    ReplaceKeepsFirst(sols, i, top, r);
    ReplaceKeepsCutoff(sols, cost, n, i, top, r);
  }

  /** No stakeholder before a strictly cheaper unseen tour reported it. */
  lemma ReplaceFirstSeen(sols: seq<Tour>, cost: seq<real>, n: nat, i: nat, top: seq<nat>)
    requires CostOfTour(sols, cost) && i < |sols| && n >= 1
    requires Leaderboard(sols, cost, n, i, top) && |top| == n && cost[i] < cost[top[n - 1]]
    requires forall a :: 0 <= a < |top| ==> sols[top[a]] != sols[i]
    ensures forall j :: 0 <= j < i ==> sols[j] != sols[i]
  {
    forall j | 0 <= j < i ensures sols[j] != sols[i] {
      if sols[j] == sols[i] {
        SameCost(sols, cost, j, i);
      }
    }
  }

  /** The board `r` holding exactly `top` less its last entry, and `i`, keeps
      first occurrences when no earlier stakeholder reported tour `i`. */
  lemma ReplaceKeepsFirst(sols: seq<Tour>, i: nat, top: seq<nat>, r: seq<nat>)
    requires i < |sols| && Indices(top, |sols|) && |top| > 0 && Indices(r, |sols|)
    requires FirstOccurrences(sols, top)
    requires forall j :: 0 <= j < i ==> sols[j] != sols[i]
    requires forall x :: x in r <==> x in top[..|top| - 1] + [i]
    ensures FirstOccurrences(sols, r)
  {
    var init := top[..|top| - 1];
    forall a, j | 0 <= a < |r| && 0 <= j < r[a] ensures sols[j] != sols[r[a]] {
      assert r[a] in r;
      if r[a] != i {
        var b :| 0 <= b < |init| && init[b] == r[a];
        assert top[b] == r[a];
      }
    }
  }

  /** After a replacement, the cut-off clause holds of the new board. */
  lemma ReplaceKeepsCutoff(sols: seq<Tour>, cost: seq<real>, n: nat, i: nat, top: seq<nat>, r: seq<nat>)
    requires CostOfTour(sols, cost) && i < |sols| && n >= 1
    requires Leaderboard(sols, cost, n, i, top) && TieBreak(sols, cost, n, i, top)
    requires |top| == n && cost[i] < cost[top[n - 1]]
    requires Indices(r, |sols|) && forall x :: x in r <==> x in top[..n - 1] + [i]
    ensures CutoffTies(sols, cost, n, i + 1, r)
  {
    var init := top[..n - 1];
    forall j, a | 0 <= j < i + 1 && 0 <= a < |r| && !Holds(sols, r, sols[j]) && cost[r[a]] == cost[j]
      ensures r[a] < j
    {
      assert r[a] in r;
      assert j != i by {
        assert i in init + [i];
        assert i in r;
      }
      forall b | 0 <= b < n - 1 ensures sols[top[b]] != sols[j] {
        assert top[b] == init[b] && init[b] in init + [i];
        assert top[b] in r;
      }
      ReplaceTie(sols, cost, n, i, top, j, r[a]);
    }
  }

  /** After a replacement, an entry tied with a tour off the board came
      first: either the tour was passed over before, or it was the evicted
      entry, itself a first occurrence behind its equal-cost peers. */
  lemma ReplaceTie(sols: seq<Tour>, cost: seq<real>, n: nat, i: nat, top: seq<nat>, j: nat, x: nat)
    requires CostOfTour(sols, cost) && i < |sols| && n >= 1
    requires Leaderboard(sols, cost, n, i, top) && TieBreak(sols, cost, n, i, top)
    requires |top| == n && cost[i] < cost[top[n - 1]]
    requires j < i && forall b :: 0 <= b < n - 1 ==> sols[top[b]] != sols[j]
    requires x == i || exists b :: 0 <= b < n - 1 && top[b] == x
    requires x < |sols| && cost[x] == cost[j]
    ensures x < j
  {
    var e := top[n - 1];
    if sols[e] == sols[j] {
      SameCost(sols, cost, j, e);
      assert x != i;
      var b :| 0 <= b < n - 1 && top[b] == x;
      assert top[b] < e;
      assert !(j < e);
    } else {
      assert !Holds(sols, top, sols[j]);
      assert x != i;
      var b :| 0 <= b < n - 1 && top[b] == x;
      assert cost[top[b]] <= cost[e];
    }
  }

  /** The fold keeps the tie-break promises at every prefix. */
  lemma SelectTieBreak(sols: seq<Tour>, cost: seq<real>, n: nat, k: nat)
    requires CostOfTour(sols, cost) && k <= |sols| && n >= 1
    ensures TieBreak(sols, cost, n, k, Select(sols, cost, n, k))
  {
    var i := 0;
    while i < k
      invariant i <= k && SelectRanks(sols, cost, n, i) && TieBreak(sols, cost, n, i, Select(sols, cost, n, i))
    {
      SelectStep(sols, cost, n, i + 1);
      StepKeepsTieBreak(sols, cost, n, i + 1, Select(sols, cost, n, i));
      i := i + 1;
    }
  }

  /** The fold keeps the leaderboard's promises at every prefix, by one
      step per stakeholder. */
  lemma SelectIsLeaderboard(sols: seq<Tour>, cost: seq<real>, n: nat, k: nat)
    requires CostOfTour(sols, cost) && k <= |sols| && n >= 1
    ensures SelectRanks(sols, cost, n, k)
  {
    var i := 0;
    while i < k
      invariant i <= k && SelectRanks(sols, cost, n, i)
    {
      SelectStep(sols, cost, n, i + 1);
      i := i + 1;
    }
  }

  /** The fold's board after `k` stakeholders keeps the leaderboard's promises. */
  predicate SelectRanks(sols: seq<Tour>, cost: seq<real>, n: nat, k: nat)
    requires |sols| == |cost| && k <= |sols| && n >= 1
  {
    Leaderboard(sols, cost, n, k, Select(sols, cost, n, k))
  }

  /** The fold's last step, from the board after `k - 1` stakeholders. */
  lemma SelectStep(sols: seq<Tour>, cost: seq<real>, n: nat, k: nat)
    requires CostOfTour(sols, cost) && 0 < k <= |sols| && n >= 1
    requires SelectRanks(sols, cost, n, k - 1)
    ensures SelectRanks(sols, cost, n, k)
  {
    StepKeepsLeaderboard(sols, cost, n, k, Select(sols, cost, n, k - 1));
  }

  // ---------------------------------------------------------------------
  // The committee-level operations.

  /** Every stakeholder has reported a tour the table can cost. */
  predicate Reported(table: Tsp.Table, c: Committee) {
    forall j :: 0 <= j < |c.stakeholders| ==>
      c.stakeholders[j].lastResult.Some? && Tsp.ValidTour(table, c.stakeholders[j].lastResult.value)
  }

  function Results(table: Tsp.Table, c: Committee): (sols: seq<Tour>)
    requires Reported(table, c)
    ensures |sols| == |c.stakeholders|
    ensures forall j :: 0 <= j < |sols| ==> Tsp.ValidTour(table, sols[j])
  {
    seq(|c.stakeholders|, j requires 0 <= j < |c.stakeholders| => c.stakeholders[j].lastResult.value)
  }

  function Costs(table: Tsp.Table, sols: seq<Tour>): (cost: seq<real>)
    requires forall j :: 0 <= j < |sols| ==> Tsp.ValidTour(table, sols[j])
    ensures CostOfTour(sols, cost)
  {
    seq(|sols|, j requires 0 <= j < |sols| => Tsp.Total(table, sols[j]))
  }

  /** `find_top_solutions`: set `top` to the best `n` stakeholders with
      pairwise different tours and return their tours, cheapest first. */
  function FindTopSolutions(c: Committee, table: Tsp.Table, n: nat): (out: (Committee, seq<Tour>))
    requires Reported(table, c) && n >= 1
    ensures var c', best := out.0, out.1;
      && c'.stakeholders == c.stakeholders && c'.maxNameLength == c.maxNameLength
      && |best| == |c'.top| <= n && Indices(c'.top, |c.stakeholders|)
      && (forall a :: 0 <= a < |best| ==> Some(best[a]) == c.stakeholders[c'.top[a]].lastResult)
      && forall a :: 0 <= a < |best| ==> Tsp.ValidTour(table, best[a])
  {
    var sols := Results(table, c);
    var top := Select(sols, Costs(table, sols), n, |sols|);
    (Committee(c.stakeholders, c.maxNameLength, top), seq(|top|, a requires 0 <= a < |top| => sols[top[a]]))
  }

  /** What `find_top_solutions` promises: the tours returned are pairwise
      different and ascending by cost, ties keep the stakeholders' order,
      every reported tour is returned or (on a full board) no cheaper than the
      last one returned, and the first one returned is a cheapest report. */
  lemma FindTopSolutionsRanks(c: Committee, table: Tsp.Table, n: nat)
    requires Reported(table, c) && n >= 1
    ensures var result := FindTopSolutions(c, table, n); var c', best := result.0, result.1;
      && (forall a, b :: 0 <= a < b < |best| ==> best[a] != best[b])
      && (forall a, b :: 0 <= a < b < |best| ==> Tsp.Total(table, best[a]) <= Tsp.Total(table, best[b]))
      && (forall a, b :: 0 <= a < b < |best| && Tsp.Total(table, best[a]) == Tsp.Total(table, best[b]) ==> c'.top[a] < c'.top[b])
      && (forall j :: 0 <= j < |c.stakeholders| ==>
            Among(best, c.stakeholders[j].lastResult.value)
            || (|best| == n && Tsp.Total(table, c.stakeholders[j].lastResult.value) >= Tsp.Total(table, best[n - 1])))
      && (|c.stakeholders| > 0 ==> |best| > 0)
      && (|best| > 0 ==> forall j :: 0 <= j < |c.stakeholders| ==>
            Tsp.Total(table, best[0]) <= Tsp.Total(table, c.stakeholders[j].lastResult.value))
  {
    FindTopOrdered(c, table, n);
    FindTopCovers(c, table, n);
    FindTopCheapest(c, table, n);
  }

  /** The board's tours are pairwise different, ascending, ties first-seen. */
  lemma FindTopOrdered(c: Committee, table: Tsp.Table, n: nat)
    requires Reported(table, c) && n >= 1
    ensures var result := FindTopSolutions(c, table, n); var c', best := result.0, result.1;
      && (forall a, b :: 0 <= a < b < |best| ==> best[a] != best[b])
      && (forall a, b :: 0 <= a < b < |best| ==> Tsp.Total(table, best[a]) <= Tsp.Total(table, best[b]))
      && (forall a, b :: 0 <= a < b < |best| && Tsp.Total(table, best[a]) == Tsp.Total(table, best[b]) ==> c'.top[a] < c'.top[b])
  {
    var sols := Results(table, c);
    var cost := Costs(table, sols);
    var top := Select(sols, cost, n, |sols|);
    var best := FindTopSolutions(c, table, n).1;
    assert FindTopSolutions(c, table, n).0.top == top;
    assert forall a :: 0 <= a < |top| ==> best[a] == sols[top[a]] && cost[top[a]] == Tsp.Total(table, best[a]);
    SelectIsLeaderboard(sols, cost, n, |sols|);
  }

  /** The board of `find_top_solutions` as a leaderboard over the reports,
      and the tours it returns as the board's tours. */
  lemma FindTopView(c: Committee, table: Tsp.Table, n: nat)
    requires Reported(table, c) && n >= 1
    ensures var sols := Results(table, c); var cost := Costs(table, sols);
      var result := FindTopSolutions(c, table, n); var top, best := result.0.top, result.1;
      && Leaderboard(sols, cost, n, |sols|, top)
      && TieBreak(sols, cost, n, |sols|, top)
      && |best| == |top|
      && (forall a :: 0 <= a < |top| ==> best[a] == sols[top[a]])
      && (forall j :: 0 <= j < |sols| ==> sols[j] == c.stakeholders[j].lastResult.value && cost[j] == Tsp.Total(table, sols[j]))
  {
    var sols := Results(table, c);
    var cost := Costs(table, sols);
    SelectIsLeaderboard(sols, cost, n, |sols|);
    SelectTieBreak(sols, cost, n, |sols|);
  }

  /** Every report is on the board or no cheaper than its last entry, and
      somebody reporting leaves the board non-empty. */
  lemma FindTopCovers(c: Committee, table: Tsp.Table, n: nat)
    requires Reported(table, c) && n >= 1
    ensures var result := FindTopSolutions(c, table, n); var best := result.1;
      && (forall j :: 0 <= j < |c.stakeholders| ==>
            Among(best, c.stakeholders[j].lastResult.value)
            || (|best| == n && Tsp.Total(table, c.stakeholders[j].lastResult.value) >= Tsp.Total(table, best[n - 1])))
      && (|c.stakeholders| > 0 ==> |best| > 0)
  {
    var sols := Results(table, c);
    var cost := Costs(table, sols);
    var result := FindTopSolutions(c, table, n);
    FindTopView(c, table, n);
    BestIsCheapest(sols, cost, n, result.0.top);
    BestCovers(sols, cost, n, result.0.top, result.1);
  }

  /** Ties as `find_top_solutions` breaks them: each tour returned is the
      first report of it, and a report left off a full board at the cut-off
      cost was passed over only in favour of stakeholders listed before it. */
  lemma FindTopTies(c: Committee, table: Tsp.Table, n: nat)
    requires Reported(table, c) && n >= 1
    ensures var result := FindTopSolutions(c, table, n); var c', best := result.0, result.1;
      && (forall a, j :: 0 <= a < |best| && 0 <= j < c'.top[a] ==> c.stakeholders[j].lastResult.value != best[a])
      && (|best| == n ==>
            forall j, a ::
              0 <= j < |c.stakeholders| && 0 <= a < |best| && !Among(best, c.stakeholders[j].lastResult.value)
              && Tsp.Total(table, c.stakeholders[j].lastResult.value) == Tsp.Total(table, best[n - 1])
              && Tsp.Total(table, best[a]) == Tsp.Total(table, best[n - 1])
              ==> c'.top[a] < j)
  {
    FindTopFirstSeen(c, table, n);
    FindTopCutoff(c, table, n);
  }

  /** Each tour returned is the first report of it. */
  lemma FindTopFirstSeen(c: Committee, table: Tsp.Table, n: nat)
    requires Reported(table, c) && n >= 1
    ensures var result := FindTopSolutions(c, table, n); var c', best := result.0, result.1;
      forall a, j :: 0 <= a < |best| && 0 <= j < c'.top[a] ==> c.stakeholders[j].lastResult.value != best[a]
  {
    var sols := Results(table, c);
    var cost := Costs(table, sols);
    var result := FindTopSolutions(c, table, n);
    FindTopView(c, table, n);
    BestTies(sols, cost, n, result.0.top, result.1);
  }

  /** A report left off a full board at the cut-off cost comes after every
      entry of that cost. */
  lemma FindTopCutoff(c: Committee, table: Tsp.Table, n: nat)
    requires Reported(table, c) && n >= 1
    ensures var result := FindTopSolutions(c, table, n); var c', best := result.0, result.1;
      |best| == n ==>
        forall j, a ::
          0 <= j < |c.stakeholders| && 0 <= a < |best| && !Among(best, c.stakeholders[j].lastResult.value)
          && Tsp.Total(table, c.stakeholders[j].lastResult.value) == Tsp.Total(table, best[n - 1])
          && Tsp.Total(table, best[a]) == Tsp.Total(table, best[n - 1])
          ==> c'.top[a] < j
  {
    var sols := Results(table, c);
    var cost := Costs(table, sols);
    var result := FindTopSolutions(c, table, n);
    var top, best := result.0.top, result.1;
    FindTopView(c, table, n);
    BestTies(sols, cost, n, top, best);
    forall j, a |
      && |best| == n && 0 <= j < |sols| && 0 <= a < |best| && !Among(best, sols[j])
      && Tsp.Total(table, sols[j]) == Tsp.Total(table, best[n - 1])
      && Tsp.Total(table, best[a]) == Tsp.Total(table, best[n - 1])
      ensures top[a] < j
    {
      assert cost[top[a]] == Tsp.Total(table, best[a]) && cost[top[n - 1]] == Tsp.Total(table, best[n - 1]);
    }
  }

  /** The tie-break promises of the final board, read off its tours. */
  lemma BestTies(sols: seq<Tour>, cost: seq<real>, n: nat, top: seq<nat>, best: seq<Tour>)
    requires |sols| == |cost| && n >= 1 && Indices(top, |sols|)
    requires TieBreak(sols, cost, n, |sols|, top)
    requires |best| == |top| && forall a :: 0 <= a < |top| ==> best[a] == sols[top[a]]
    ensures forall a, j :: 0 <= a < |top| && 0 <= j < top[a] ==> sols[j] != best[a]
    ensures |best| == n ==>
      forall j, a ::
        0 <= j < |sols| && 0 <= a < |top| && !Among(best, sols[j]) && cost[j] == cost[top[n - 1]] && cost[top[a]] == cost[j]
        ==> top[a] < j
  {
  }

  /** The board's first tour costs no more than any report. */
  lemma FindTopCheapest(c: Committee, table: Tsp.Table, n: nat)
    requires Reported(table, c) && n >= 1
    ensures var result := FindTopSolutions(c, table, n); var best := result.1;
      |best| > 0 ==> forall j :: 0 <= j < |c.stakeholders| ==>
        Tsp.Total(table, best[0]) <= Tsp.Total(table, c.stakeholders[j].lastResult.value)
  {
    var sols := Results(table, c);
    var cost := Costs(table, sols);
    var result := FindTopSolutions(c, table, n);
    FindTopView(c, table, n);
    BestIsCheapest(sols, cost, n, result.0.top);
  }

  /** Tour `v` is one of `best`. */
  predicate Among(best: seq<Tour>, v: Tour) {
    exists a :: 0 <= a < |best| && best[a] == v
  }

  /** Every tour seen is among the board's tours, or the board is full and
      the tour is no cheaper than its last entry. */
  lemma BestCovers(sols: seq<Tour>, cost: seq<real>, n: nat, top: seq<nat>, best: seq<Tour>)
    requires CostOfTour(sols, cost) && n >= 1
    requires Leaderboard(sols, cost, n, |sols|, top)
    requires |best| == |top| && forall a :: 0 <= a < |top| ==> best[a] == sols[top[a]]
    ensures forall j :: 0 <= j < |sols| ==> Among(best, sols[j]) || (|best| == n && cost[j] >= cost[top[n - 1]])
  {
    forall j | 0 <= j < |sols|
      ensures Among(best, sols[j]) || (|best| == n && cost[j] >= cost[top[n - 1]])
    {
      if Holds(sols, top, sols[j]) {
        var a :| 0 <= a < |top| && sols[top[a]] == sols[j];
        assert best[a] == sols[j];
      }
    }
  }

  /** The first entry of a non-empty board is no dearer than any tour seen. */
  lemma BestIsCheapest(sols: seq<Tour>, cost: seq<real>, n: nat, top: seq<nat>)
    requires CostOfTour(sols, cost) && n >= 1
    requires Leaderboard(sols, cost, n, |sols|, top)
    ensures |sols| > 0 ==> |top| > 0
    ensures |top| > 0 ==> forall j :: 0 <= j < |sols| ==> cost[top[0]] <= cost[j]
  {
    if |sols| > 0 {
      assert Holds(sols, top, sols[0]) || |top| == n;
    }
    forall j | 0 <= j < |sols| && |top| > 0 ensures cost[top[0]] <= cost[j] {
      if Holds(sols, top, sols[j]) {
        var a :| 0 <= a < |top| && sols[top[a]] == sols[j];
        if a > 0 { assert cost[top[0]] <= cost[top[a]]; }
      } else {
        if n - 1 > 0 { assert cost[top[0]] <= cost[top[n - 1]]; }
      }
    }
  }

  /** `get_best_solution`: the first leaderboard entry, computing the board
      (for the default three entries) only when it is empty. */
  function GetBestSolution(c: Committee, table: Tsp.Table): (out: (Committee, nat))
    requires Valid(c)
    requires c.top != [] || (|c.stakeholders| > 0 && Reported(table, c))
    ensures var c', best := out.0, out.1;
      && Valid(c') && c'.stakeholders == c.stakeholders
      && c'.top != [] && best == c'.top[0] && best < |c.stakeholders|
      && (c.top != [] ==> c' == c)
      && (c.top == [] ==>
            && c' == FindTopSolutions(c, table, 3).0
            && forall j :: 0 <= j < |c.stakeholders| ==>
                 Tsp.Total(table, c.stakeholders[best].lastResult.value) <= Tsp.Total(table, c.stakeholders[j].lastResult.value))
  {
    if c.top == [] then
      var result := FindTopSolutions(c, table, 3);
      var c', best := result.0, result.1;
      FindTopCovers(c, table, 3);
      FindTopCheapest(c, table, 3);
      assert Some(best[0]) == c.stakeholders[c'.top[0]].lastResult;
      (c', c'.top[0])
    else (c, c.top[0])
  }

  // ---------------------------------------------------------------------
  // The duplicate test of find_top_solutions as written: it compares the
  // printed forms of two tours, and numpy prints a long array summarised.

  /** numpy prints an array of at most this many items in full ... */
  const SummaryThreshold := 1000
  /** ... and a longer one as this many items from each end. */
  const EdgeItems := 3

  /** `np.array2string` of a tour, up to the layout of the text: either every
      item, or the items at both ends with the middle elided. */
  datatype Rendering = Full(items: seq<int>) | Summarised(head: seq<int>, tail: seq<int>)

  function Render(t: Tour): (s: Rendering)
    ensures s.Full? <==> |t| <= SummaryThreshold
  {
    if |t| <= SummaryThreshold then Full(t)
    else Summarised(t[..EdgeItems], t[|t| - EdgeItems..])
  }

  /** Printing tells tours of at most `SummaryThreshold` cities apart
      exactly when they differ, and never confuses a short with a long one. */
  lemma RenderShortIsFaithful(a: Tour, b: Tour)
    requires |a| <= SummaryThreshold || |b| <= SummaryThreshold
    ensures Render(a) == Render(b) <==> a == b
  {
  }

  /** The step as written: a tour whose printed form matches one on the
      board is skipped; otherwise the step is the one on tours. */
  function StepAsWritten(sols: seq<Tour>, cost: seq<real>, n: nat, top: seq<nat>, i: nat): (r: seq<nat>)
    requires |sols| == |cost| && i < |sols| && n >= 1 && Indices(top, |sols|)
    ensures Indices(r, |sols|)
    ensures |top| <= n ==> |r| <= n
  {
    if exists a :: 0 <= a < |top| && Render(sols[top[a]]) == Render(sols[i]) then SortByCost(cost, top)
    else Step(sols, cost, n, top, i)
  }

  /** On a tour of at most `SummaryThreshold` cities the step as written is
      the step on tours: a matching printed form means an equal tour. */
  lemma StepAsWrittenAgrees(sols: seq<Tour>, cost: seq<real>, n: nat, top: seq<nat>, i: nat)
    requires |sols| == |cost| && i < |sols| && n >= 1 && Indices(top, |sols|)
    requires |sols[i]| <= SummaryThreshold
    ensures StepAsWritten(sols, cost, n, top, i) == Step(sols, cost, n, top, i)
  {
    if exists a :: 0 <= a < |top| && Render(sols[top[a]]) == Render(sols[i]) {
      var a :| 0 <= a < |top| && Render(sols[top[a]]) == Render(sols[i]);
      RenderShortIsFaithful(sols[top[a]], sols[i]);
    }
  }

  /** The loop of `find_top_solutions` as written, after the first `k`
      stakeholders. */
  function SelectAsWritten(sols: seq<Tour>, cost: seq<real>, n: nat, k: nat): (r: seq<nat>)
    requires |sols| == |cost| && k <= |sols| && n >= 1
    ensures Indices(r, |sols|) && |r| <= n
  {
    if k == 0 then [] else StepAsWritten(sols, cost, n, SelectAsWritten(sols, cost, n, k - 1), k - 1)
  }

  /** While every tour has at most `SummaryThreshold` cities the loop as
      written builds the same board as the loop comparing tours. */
  lemma {:induction false} SelectAsWrittenAgrees(sols: seq<Tour>, cost: seq<real>, n: nat, k: nat)
    requires |sols| == |cost| && k <= |sols| && n >= 1
    requires forall j :: 0 <= j < k ==> |sols[j]| <= SummaryThreshold
    ensures SelectAsWritten(sols, cost, n, k) == Select(sols, cost, n, k)
  {
    var i := 0;
    while i < k
      invariant i <= k && SelectAsWritten(sols, cost, n, i) == Select(sols, cost, n, i)
    {
      SelectAsWrittenUnfold(sols, cost, n, i + 1);
      StepAsWrittenAgrees(sols, cost, n, Select(sols, cost, n, i), i);
      i := i + 1;
    }
  }

  /** One more stakeholder is one more step of either loop. */
  lemma SelectAsWrittenUnfold(sols: seq<Tour>, cost: seq<real>, n: nat, k: nat)
    requires |sols| == |cost| && 0 < k <= |sols| && n >= 1
    ensures SelectAsWritten(sols, cost, n, k) == StepAsWritten(sols, cost, n, SelectAsWritten(sols, cost, n, k - 1), k - 1)
    ensures Select(sols, cost, n, k) == Step(sols, cost, n, Select(sols, cost, n, k - 1), k - 1)
  {
  }

  /** Two tours of the cities 1 to 1001 that differ only in the middle. */
  function LongTour(): (t: Tour)
    ensures |t| == SummaryThreshold + 1
  {
    seq(SummaryThreshold + 1, c requires 0 <= c <= SummaryThreshold => c + 1)
  }

  function LongTourSwapped(): (t: Tour)
    ensures |t| == SummaryThreshold + 1 && t != LongTour()
  {
    var t := LongTour()[500 := 502][501 := 501];
    assert t[500] != LongTour()[500];
    t
  }

  /** The two long tours print alike. */
  lemma LongToursPrintAlike()
    ensures LongTour() != LongTourSwapped() && Render(LongTour()) == Render(LongTourSwapped())
  {
    var t, u := LongTour(), LongTourSwapped();
    assert t[..EdgeItems] == u[..EdgeItems];
    assert t[|t| - EdgeItems..] == u[|u| - EdgeItems..];
  }

  /** As written, a second stakeholder with a different 1001-city tour is
      skipped although the board has room, so the board ends with the first
      tour alone; comparing tours keeps both. */
  lemma AsWrittenDropsDistinctLongTour(cost: seq<real>)
    requires |cost| == 2
    ensures var sols := [LongTour(), LongTourSwapped()];
      && sols[0] != sols[1]
      && SelectAsWritten(sols, cost, 3, 2) == [0]
      && Holds(sols, Select(sols, cost, 3, 2), sols[1])
  {
    AsWrittenKeepsFirstOnly(cost);
    ByValueKeepsBoth(cost);
  }

  /** The first stakeholder alone opens the board, either way. */
  lemma FirstOnBoard(sols: seq<Tour>, cost: seq<real>)
    requires |sols| == |cost| == 2
    ensures SelectAsWritten(sols, cost, 3, 1) == [0] && Select(sols, cost, 3, 1) == [0]
  {
    SortSortedIsIdentity(cost, [0]);
    assert Step(sols, cost, 3, [], 0) == [0];
  }

  lemma AsWrittenKeepsFirstOnly(cost: seq<real>)
    requires |cost| == 2
    ensures SelectAsWritten([LongTour(), LongTourSwapped()], cost, 3, 2) == [0]
  {
    var sols := [LongTour(), LongTourSwapped()];
    FirstOnBoard(sols, cost);
    LongToursPrintAlike();
    SortSortedIsIdentity(cost, [0]);
    assert Render(sols[[0][0]]) == Render(sols[1]);
    assert SelectAsWritten(sols, cost, 3, 2) == StepAsWritten(sols, cost, 3, [0], 1);
  }

  lemma ByValueKeepsBoth(cost: seq<real>)
    requires |cost| == 2
    ensures Holds([LongTour(), LongTourSwapped()], Select([LongTour(), LongTourSwapped()], cost, 3, 2), LongTourSwapped())
  {
    var sols := [LongTour(), LongTourSwapped()];
    FirstOnBoard(sols, cost);
    assert Holds(sols, [0], sols[0]);
    assert Leaderboard(sols, cost, 3, 1, [0]);
    StepAppendSorted(sols, cost, 3, 1, [0]);
    assert Select(sols, cost, 3, 2) == Step(sols, cost, 3, [0], 1);
  }
}
