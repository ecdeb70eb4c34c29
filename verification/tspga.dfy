/** The genetic-algorithm side of the solver (tspga.py): the parameter
    clamping of `create_tspga` and the cascade crossover operator.

    A tour is a sequence of distinct city numbers. Random draws are
    explicit parameters: each child is built from a `Draw` naming its two
    parents and its first swap position. */
module TspGa {
  import Tsp

  /** The values of `x` as a set, as `np.unique` collects them. */
  function Elems(x: seq<int>): (r: set<int>)
    ensures forall v :: v in r <==> v in x
  {
    if |x| == 0 then {} else {x[0]} + Elems(x[1..])
  }

  /** No value occurs at two positions. */
  predicate Distinct(x: seq<int>) {
    forall i, j :: 0 <= i < j < |x| ==> x[i] != x[j]
  }

  /** The number of distinct values never exceeds the length, and equals it
      exactly when no value repeats. */
  lemma {:induction false} ElemsCardinality(x: seq<int>)
    ensures |Elems(x)| <= |x|
    ensures |Elems(x)| == |x| <==> Distinct(x)
  {
    if |x| > 0 {
      var rest := x[1..];
      ElemsCardinality(rest);
      if x[0] in Elems(rest) {
        assert Elems(x) == Elems(rest);
        var k :| 0 <= k < |rest| && rest[k] == x[0];
        assert x[0] == x[k + 1];
      } else {
        assert Distinct(x) <==> Distinct(rest) by {
          if Distinct(rest) {
            forall i, j | 0 <= i < j < |x| ensures x[i] != x[j] {
              if i > 0 {
                assert x[i] == rest[i - 1] && x[j] == rest[j - 1];
              } else {
                assert x[j] == rest[j - 1];
              }
            }
          }
        }
      }
    }
  }

  /** `contains_duplicates`: the number of unique values differs from the length. */
  function ContainsDuplicates(x: seq<int>): (r: bool)
    ensures r <==> exists i, j :: 0 <= i < j < |x| && x[i] == x[j]
  {
    ElemsCardinality(x);
    |Elems(x)| != |x|
  }

  /** `c` holds the values of `p`, each exactly once. */
  predicate Permutation(c: seq<int>, p: seq<int>) {
    |c| == |p| && Distinct(c) && (forall v :: v in c ==> v in p) && (forall v :: v in p ==> v in c)
  }

  /** Two parents the crossover accepts: equally long permutations of the same values. */
  predicate Compatible(p1: seq<int>, p2: seq<int>) {
    Distinct(p2) && Permutation(p1, p2)
  }

  /** `np.where(s == v)` on a sequence where `v` occurs once. */
  function IndexOf(s: seq<int>, v: int): (i: nat)
    requires v in s
    ensures i < |s| && s[i] == v
    ensures forall j :: 0 <= j < i ==> s[j] != v
  {
    if s[0] == v then 0 else 1 + IndexOf(s[1..], v)
  }

  /** One step along the permutation `p1⁻¹ ∘ p2`: the position in `p1` of the
      value `p2` holds at `k`. */
  function Next(p1: seq<int>, p2: seq<int>, k: nat): (r: nat)
    requires Compatible(p1, p2) && k < |p1|
    ensures r < |p1| && p1[r] == p2[k]
  {
    IndexOf(p1, p2[k])
  }

  /** The position reached after `j` steps from `s`. */
  function Orbit(p1: seq<int>, p2: seq<int>, s: nat, j: nat): (r: nat)
    requires Compatible(p1, p2) && s < |p1|
    ensures r < |p1|
  {
    if j == 0 then s else Next(p1, p2, Orbit(p1, p2, s, j - 1))
  }

  /** Position `k` lies on the cycle of `p1⁻¹ ∘ p2` through `s`. */
  predicate OnCycle(p1: seq<int>, p2: seq<int>, s: nat, k: nat)
    requires Compatible(p1, p2) && s < |p1|
  {
    exists j :: 0 <= j < |p1| && Orbit(p1, p2, s, j) == k
  }

  /** Single-cycle crossover, stated directly: `p2` on the cycle through `s`,
      `p1` everywhere else. */
  function CycleChild(p1: seq<int>, p2: seq<int>, s: nat): (c: seq<int>)
    requires Compatible(p1, p2) && s < |p1|
    ensures |c| == |p1|
  {
    seq(|p1|, k requires 0 <= k < |p1| => if OnCycle(p1, p2, s, k) then p2[k] else p1[k])
  }

  /** `cycle` lists distinct positions, each one step after the one before. */
  predicate Chain(p1: seq<int>, p2: seq<int>, cycle: seq<nat>)
    requires Compatible(p1, p2)
  {
    && |cycle| >= 1
    && (forall a :: 0 <= a < |cycle| ==> cycle[a] < |p1|)
    && (forall a, b :: 0 <= a < b < |cycle| ==> cycle[a] != cycle[b])
    && (forall a :: 0 <= a < |cycle| - 1 ==> cycle[a + 1] == Next(p1, p2, cycle[a]))
  }

  /** The child during duplicate resolution: `p2` on the positions visited so
      far, `p1` elsewhere. */
  predicate Overwritten(p1: seq<int>, p2: seq<int>, cycle: seq<nat>, child: seq<int>) {
    |child| == |p1| == |p2| && forall k :: 0 <= k < |p1| ==> child[k] == if k in cycle then p2[k] else p1[k]
  }

  /** Distinct sequences are injective, whichever way round the positions come. */
  lemma DistinctAt(x: seq<int>, i: nat, j: nat)
    requires Distinct(x) && i < |x| && j < |x| && i != j
    ensures x[i] != x[j]
  {
    if j < i {
      assert x[j] != x[i];
    }
  }

  /** While the chain is open its next position has not been visited yet. */
  lemma OpenChainGrows(p1: seq<int>, p2: seq<int>, cycle: seq<nat>)
    requires Compatible(p1, p2) && Chain(p1, p2, cycle)
    requires Next(p1, p2, cycle[|cycle| - 1]) != cycle[0]
    ensures Next(p1, p2, cycle[|cycle| - 1]) !in cycle
  {
    var last := cycle[|cycle| - 1];
    var x := Next(p1, p2, last);
    forall b | 0 <= b < |cycle| ensures cycle[b] != x {
      if b > 0 {
        assert p1[cycle[b]] == p2[cycle[b - 1]];
        if cycle[b - 1] != last {
          DistinctAt(p2, cycle[b - 1], last);
        }
      }
    }
  }

  /** The child still holds a duplicate exactly when the chain has not closed
      back on its start; once closed, the child is a permutation of `p1`. */
  lemma DuplicateIffOpen(p1: seq<int>, p2: seq<int>, cycle: seq<nat>, child: seq<int>)
    requires Compatible(p1, p2) && Chain(p1, p2, cycle) && Overwritten(p1, p2, cycle, child)
    ensures ContainsDuplicates(child) <==> Next(p1, p2, cycle[|cycle| - 1]) != cycle[0]
    ensures Next(p1, p2, cycle[|cycle| - 1]) == cycle[0] ==> Permutation(child, p1)
  {
    var last := cycle[|cycle| - 1];
    var x := Next(p1, p2, last);
    if x != cycle[0] {
      OpenChainGrows(p1, p2, cycle);
      assert child[x] == child[last];
      if x < last {
        assert 0 <= x < last < |child| && child[x] == child[last];
      } else {
        assert 0 <= last < x < |child| && child[last] == child[x];
      }
    } else {
      forall i, j | 0 <= i < j < |child| ensures child[i] != child[j] {
        NoClash(p1, p2, cycle, child, i, j);
      }
      forall v | v in p1 ensures v in child {
        var k := IndexOf(p1, v);
        if k in cycle {
          var a :| 0 <= a < |cycle| && cycle[a] == k;
          if a == 0 {
            assert child[last] == v;
          } else {
            assert child[cycle[a - 1]] == v;
          }
        } else {
          assert child[k] == v;
        }
      }
    }
  }

  /** In a closed chain no two positions of the child hold the same value. */
  lemma NoClash(p1: seq<int>, p2: seq<int>, cycle: seq<nat>, child: seq<int>, u: nat, w: nat)
    requires Compatible(p1, p2) && Chain(p1, p2, cycle) && Overwritten(p1, p2, cycle, child)
    requires Next(p1, p2, cycle[|cycle| - 1]) == cycle[0]
    requires u < |child| && w < |child| && u != w
    ensures child[u] != child[w]
  {
    if u in cycle && w in cycle {
      DistinctAt(p2, u, w);
    } else if u !in cycle && w !in cycle {
      DistinctAt(p1, u, w);
    } else {
      var on, off := if u in cycle then u else w, if u in cycle then w else u;
      var a :| 0 <= a < |cycle| && cycle[a] == on;
      var nxt := if a < |cycle| - 1 then cycle[a + 1] else cycle[0];
      assert p1[nxt] == p2[on] == child[on];
      assert child[off] == p1[off];
      DistinctAt(p1, nxt, off);
    }
  }

  /** A closed chain is the whole cycle through its first position. */
  lemma ClosedChainIsCycle(p1: seq<int>, p2: seq<int>, cycle: seq<nat>)
    requires Compatible(p1, p2) && Chain(p1, p2, cycle)
    requires Next(p1, p2, cycle[|cycle| - 1]) == cycle[0]
    requires |cycle| <= |p1|
    requires forall a :: 0 <= a < |cycle| ==> cycle[a] == Orbit(p1, p2, cycle[0], a)
    ensures forall k :: 0 <= k < |p1| ==> (OnCycle(p1, p2, cycle[0], k) <==> k in cycle)
  {
    forall k | 0 <= k < |p1| && OnCycle(p1, p2, cycle[0], k) ensures k in cycle {
      var j :| 0 <= j < |p1| && Orbit(p1, p2, cycle[0], j) == k;
      OrbitStaysOnChain(p1, p2, cycle, j);
    }
    forall k | 0 <= k < |p1| && k in cycle ensures OnCycle(p1, p2, cycle[0], k) {
      var a :| 0 <= a < |cycle| && cycle[a] == k;
      assert Orbit(p1, p2, cycle[0], a) == k;
    }
  }

  lemma {:induction false} OrbitStaysOnChain(p1: seq<int>, p2: seq<int>, cycle: seq<nat>, j: nat)
    requires Compatible(p1, p2) && Chain(p1, p2, cycle)
    requires Next(p1, p2, cycle[|cycle| - 1]) == cycle[0]
    ensures Orbit(p1, p2, cycle[0], j) in cycle
  {
    if j > 0 {
      OrbitStaysOnChain(p1, p2, cycle, j - 1);
      var a :| 0 <= a < |cycle| && cycle[a] == Orbit(p1, p2, cycle[0], j - 1);
      if a < |cycle| - 1 {
        assert Orbit(p1, p2, cycle[0], j) == cycle[a + 1];
      }
    }
  }

  /** The positions `0 .. n-1`. */
  function Range(n: nat): (r: set<nat>)
    ensures forall k: nat :: k in r <==> k < n
    ensures |r| == n
  {
    if n == 0 then {} else Range(n - 1) + {n - 1}
  }

  /** The positions not visited yet. */
  function Unvisited(n: nat, cycle: seq<nat>): set<nat> {
    set k | k in Range(n) && k !in cycle
  }

  /** The state of the duplicate-resolution loop: the positions visited so far
      follow the cycle from `swap`, carry `p2`'s genes, and together with the
      unvisited ones make up all positions. */
  predicate Resolving(p1: seq<int>, p2: seq<int>, swap: nat, cycle: seq<nat>, child: seq<int>)
    requires Compatible(p1, p2) && swap < |p1|
  {
    && Chain(p1, p2, cycle) && cycle[0] == swap
    && (forall a :: 0 <= a < |cycle| ==> cycle[a] == Orbit(p1, p2, swap, a))
    && Overwritten(p1, p2, cycle, child)
    && |cycle| + |Unvisited(|p1|, cycle)| == |p1|
  }

  /** The first overwrite starts the loop in its invariant state. */
  lemma ResolvingStart(p1: seq<int>, p2: seq<int>, swap: nat)
    requires Compatible(p1, p2) && swap < |p1|
    ensures Resolving(p1, p2, swap, [swap], p1[swap := p2[swap]])
  {
    assert Unvisited(|p1|, [swap]) == Range(|p1|) - {swap};
  }

  /** One pass of the loop visits one new position and keeps the invariant. */
  lemma ResolvingStep(p1: seq<int>, p2: seq<int>, swap: nat, cycle: seq<nat>, child: seq<int>)
    requires Compatible(p1, p2) && swap < |p1|
    requires Resolving(p1, p2, swap, cycle, child)
    requires Next(p1, p2, cycle[|cycle| - 1]) != swap
    ensures var s := Next(p1, p2, cycle[|cycle| - 1]);
      && Resolving(p1, p2, swap, cycle + [s], child[s := p2[s]])
      && |Unvisited(|p1|, cycle + [s])| < |Unvisited(|p1|, cycle)|
  {
    var s := Next(p1, p2, cycle[|cycle| - 1]);
    OpenChainGrows(p1, p2, cycle);
    var cycle' := cycle + [s];
    assert Chain(p1, p2, cycle') by {
      assert forall a :: 0 <= a < |cycle| ==> cycle'[a] == cycle[a];
    }
    forall a | 0 <= a < |cycle'| ensures cycle'[a] == Orbit(p1, p2, swap, a) {
      if a < |cycle| {
        assert cycle'[a] == cycle[a];
      } else {
        assert Orbit(p1, p2, swap, a) == Next(p1, p2, Orbit(p1, p2, swap, a - 1));
      }
    }
    UnvisitedShrinks(|p1|, cycle, s);
    OverwriteStep(p1, p2, cycle, child, s);
  }

  /** Copying `p2`'s gene at a newly visited position keeps the child
      overwritten exactly on the visited positions. */
  lemma OverwriteStep(p1: seq<int>, p2: seq<int>, cycle: seq<nat>, child: seq<int>, s: nat)
    requires Overwritten(p1, p2, cycle, child) && s < |p1|
    ensures Overwritten(p1, p2, cycle + [s], child[s := p2[s]])
  {
    var child' := child[s := p2[s]];
    forall k | 0 <= k < |p1| ensures child'[k] == if k in cycle + [s] then p2[k] else p1[k] {
      if k != s {
        assert (k in cycle + [s]) == (k in cycle);
      }
    }
  }

  /** Visiting a new position removes exactly that one from the unvisited. */
  lemma UnvisitedShrinks(n: nat, cycle: seq<nat>, s: nat)
    requires s < n && s !in cycle
    ensures Unvisited(n, cycle + [s]) == Unvisited(n, cycle) - {s}
    ensures |Unvisited(n, cycle + [s])| == |Unvisited(n, cycle)| - 1
  {
    assert s in Unvisited(n, cycle);
    assert Unvisited(n, cycle + [s]) == Unvisited(n, cycle) - {s};
  }

  /** One child of `cascade_crossover`: clone `p1`, copy `p2`'s gene at
      `swap`, then while the child holds a duplicate, move to the position in
      `p1` of the value just copied and copy `p2`'s gene there too. `steps`
      counts the passes of the duplicate-resolution loop. */
  method CascadeChild(p1: seq<int>, p2: seq<int>, swap: nat) returns (child: seq<int>, steps: nat)
    requires Compatible(p1, p2) && swap < |p1|
    ensures Permutation(child, p1)
    ensures child == CycleChild(p1, p2, swap)
    ensures forall k :: 0 <= k < |child| ==> child[k] == p1[k] || child[k] == p2[k]
    ensures child[swap] == p2[swap]
    ensures p1[swap] == p2[swap] ==> child == p1 && steps == 0
    ensures steps < |p1|
  {
    child := p1;
    child := child[swap := p2[swap]];
    var s := swap;
    steps := 0;
    ghost var cycle: seq<nat> := [swap];
    ResolvingStart(p1, p2, swap);
    while ContainsDuplicates(child)
      invariant Resolving(p1, p2, swap, cycle, child)
      invariant s == cycle[|cycle| - 1] && steps == |cycle| - 1
      decreases |Unvisited(|p1|, cycle)|
    {
      DuplicateIffOpen(p1, p2, cycle, child);
      ResolvingStep(p1, p2, swap, cycle, child);
      s := IndexOf(p1, child[s]);
      child := child[s := p2[s]];
      steps := steps + 1;
      cycle := cycle + [s];
    }
    DuplicateIffOpen(p1, p2, cycle, child);
    Resolved(p1, p2, swap, cycle, child);
  }

  /** When the loop stops, the visited positions are exactly the cycle
      through `swap`, so the child is the single-cycle crossover. */
  lemma Resolved(p1: seq<int>, p2: seq<int>, swap: nat, cycle: seq<nat>, child: seq<int>)
    requires Compatible(p1, p2) && swap < |p1|
    requires Resolving(p1, p2, swap, cycle, child)
    requires Next(p1, p2, cycle[|cycle| - 1]) == swap
    ensures child == CycleChild(p1, p2, swap)
    ensures p1[swap] == p2[swap] ==> |cycle| == 1 && child == p1
  {
    ClosedChainIsCycle(p1, p2, cycle);
    var c := CycleChild(p1, p2, swap);
    forall k | 0 <= k < |p1| ensures child[k] == c[k] {
      assert OnCycle(p1, p2, swap, k) <==> k in cycle;
    }
    if p1[swap] == p2[swap] {
      assert Next(p1, p2, swap) == swap;
    }
  }

  /** The random choices behind one child: two parent indices (`p2` already
      redrawn until it differs from `p1`) and the first swap position. */
  datatype Draw = Draw(p1: nat, p2: nat, swap: nat)

  /** Every pair of parents is compatible. */
  predicate Parents(parents: seq<seq<int>>) {
    forall a, b :: 0 <= a < |parents| && 0 <= b < |parents| ==> Compatible(parents[a], parents[b])
  }

  /** The number of genes per parent. */
  function GeneCount(parents: seq<seq<int>>): nat {
    if |parents| == 0 then 0 else |parents[0]|
  }

  /** Draws the crossover can use: each names two distinct parents and a
      first swap position among the genes. */
  predicate ValidDraws(draws: seq<Draw>, numParents: nat, numGenes: nat) {
    forall c :: 0 <= c < |draws| ==>
      draws[c].p1 < numParents && draws[c].p2 < numParents && draws[c].p1 != draws[c].p2 && draws[c].swap < numGenes
  }

  /** `cascade_crossover`: one child per draw, `|draws|` being
      `offspring_size[0]`. */
  method CascadeCrossover(parents: seq<seq<int>>, draws: seq<Draw>) returns (offspring: seq<seq<int>>)
    requires Parents(parents)
    requires ValidDraws(draws, |parents|, GeneCount(parents))
    ensures |offspring| == |draws|
    ensures forall c :: 0 <= c < |offspring| ==>
              Permutation(offspring[c], parents[draws[c].p1]) && Permutation(offspring[c], parents[draws[c].p2])
    ensures forall c :: 0 <= c < |offspring| ==>
              offspring[c] == CycleChild(parents[draws[c].p1], parents[draws[c].p2], draws[c].swap)
  {
    offspring := [];
    while |offspring| != |draws|
      invariant |offspring| <= |draws|
      invariant forall c :: 0 <= c < |offspring| ==>
                  Permutation(offspring[c], parents[draws[c].p1]) && Permutation(offspring[c], parents[draws[c].p2])
      invariant forall c :: 0 <= c < |offspring| ==>
                  offspring[c] == CycleChild(parents[draws[c].p1], parents[draws[c].p2], draws[c].swap)
      decreases |draws| - |offspring|
    {
      var d := draws[|offspring|];
      assert Compatible(parents[d.p1], parents[d.p2]);
      var child, _ := CascadeChild(parents[d.p1], parents[d.p2], d.swap);
      offspring := offspring + [child];
    }
  }

  /** As written, the first swap position comes from `random.randint(0, N)`
      with `N = len(parents) - 1`: it is bounded by the number of parents,
      not by the number of genes. */
  predicate SwapDrawnAsWritten(numParents: nat, swap: nat) {
    swap < numParents
  }

  /** Two parents whose only differing cycle is positions 2 and 3. */
  function ExampleP1(): seq<int> { [1, 2, 3, 4] }

  function ExampleP2(): seq<int> { [1, 2, 4, 3] }

  /** With two parents, no first swap position the code can draw reaches the
      cycle on positions 2 and 3: every such child is a clone of `p1`. */
  lemma AsWrittenSwapMissesCycle()
    ensures Compatible(ExampleP1(), ExampleP2())
    ensures forall s: nat :: SwapDrawnAsWritten(2, s) ==> s < 4 && CycleChild(ExampleP1(), ExampleP2(), s) == ExampleP1()
  {
    var p1, p2 := ExampleP1(), ExampleP2();
    assert Compatible(p1, p2);
    forall s: nat | SwapDrawnAsWritten(2, s) ensures CycleChild(p1, p2, s) == p1 {
      assert Next(p1, p2, s) == s;
      ClosedChainIsCycle(p1, p2, [s]);
      var c := CycleChild(p1, p2, s);
      forall k | 0 <= k < 4 ensures c[k] == p1[k] {
        if k == s { assert p1[k] == p2[k]; }
      }
    }
  }

  /** Drawn from the gene positions, as intended, the first swap can start
      on every cycle; with the same parents position 2 yields `p2` itself. */
  lemma IntendedSwapReachesCycle()
    ensures Compatible(ExampleP1(), ExampleP2())
    ensures ValidDraws([Draw(0, 1, 2)], 2, 4)
    ensures CycleChild(ExampleP1(), ExampleP2(), 2) == ExampleP2()
  {
    var p1, p2 := ExampleP1(), ExampleP2();
    assert Compatible(p1, p2);
    assert Next(p1, p2, 2) == 3;
    assert Next(p1, p2, 3) == 2;
    assert Orbit(p1, p2, 2, 1) == 3;
    ClosedChainIsCycle(p1, p2, [2, 3]);
    var c := CycleChild(p1, p2, 2);
    forall k | 0 <= k < 4 ensures c[k] == p2[k] {
      if k < 2 { assert p1[k] == p2[k]; }
    }
  }

  /** The settings `create_tspga` hands to the genetic-algorithm engine. */
  datatype GaSettings = GaSettings(numParentsMating: int, parentsKept: int, numGenerations: int, populationSize: int)

  /** `create_tspga`'s parameter clamping for a table of `|table|` cities. */
  function CreateTspGa(table: Tsp.Table, parentsKept: int): (g: GaSettings)
    ensures g.numParentsMating >= 2 && g.numParentsMating >= |table| / 2
    ensures g.numParentsMating == 2 || g.numParentsMating == |table| / 2
    ensures g.parentsKept <= g.numParentsMating && g.parentsKept <= parentsKept
    ensures g.parentsKept == parentsKept || g.parentsKept == g.numParentsMating
    ensures g.numGenerations == 10 * |table|
    ensures g.populationSize == 200
  {
    var n := |table|;
    var mating := if n / 2 < 2 then 2 else n / 2;
    var kept := if parentsKept > mating then mating else parentsKept;
    GaSettings(mating, kept, 10 * n, 200)
  }
}
