/** The coordinator's round loop (`server_func` of tspserver.py): register
    the stakeholders, then for each round broadcast the problem or the seeds,
    collect every stakeholder's tour, rank them on the chair's table, and
    finally broadcast the stop command and report the best stakeholder.

    Sockets, the clock and the consoles are not modelled: the names of the
    stakeholders that connected and the tours they reply with are parameters,
    and the messages broadcast are returned as a list in sending order. */
module TspServer {
  import opened Wrappers
  import Tsp
  import opened Committee

  /** The tables the first round hands to every stakeholder. */
  datatype InitPayload = InitPayload(distanceNorm: Tsp.Table, timeNorm: Tsp.Table,
                                     distance: Tsp.Table, time: Tsp.Table, chairWeights: Tsp.Table)

  /** The commands the coordinator broadcasts. */
  datatype Message = Init(payload: InitPayload) | Continue(seeds: seq<Tour>) | ReqResult | Stop

  /** How a run ends: with the index of the best stakeholder, or with the
      failure raised when the leaderboard is empty where its first entry is
      read (no round was played, or nobody connected). */
  datatype Outcome = Finished(winner: nat) | Failed

  /** The number of stakeholders a leaderboard round keeps. */
  const TopCount: nat := 3

  /** Every tour of a round is one the tables can cost. */
  predicate Replies(t: Tsp.Table, n: nat, reply: seq<Tour>) {
    |reply| == n && forall j :: 0 <= j < |reply| ==> Tsp.ValidTour(t, reply[j])
  }

  /** Stakeholder `w`'s reply costs no more than any other reply. */
  predicate Cheapest(chair: Tsp.Table, reply: seq<Tour>, w: nat)
    requires forall j :: 0 <= j < |reply| ==> Tsp.ValidTour(chair, reply[j])
  {
    w < |reply| && forall j :: 0 <= j < |reply| ==> Tsp.Total(chair, reply[w]) <= Tsp.Total(chair, reply[j])
  }

  /** Every round's replies can be costed on `t`. */
  predicate AllReplies(t: Tsp.Table, n: nat, replies: seq<seq<Tour>>) {
    forall q :: 0 <= q < |replies| ==> Replies(t, n, replies[q])
  }

  /** A committee of the connected names holding this round's replies and
      an empty board. The server never builds it (its live committee keeps
      the previous board); it is the reference the live round is compared
      with. */
  function Reporting(names: seq<string>, reply: seq<Tour>): (c: Committee)
    requires |reply| == |names|
    ensures Valid(c) && c.top == [] && |c.stakeholders| == |names|
    ensures forall j :: 0 <= j < |names| ==> c.stakeholders[j] == Stakeholder(names[j], Some(reply[j]))
  {
    var s := seq(|names|, j requires 0 <= j < |names| => Stakeholder(names[j], Some(reply[j])));
    Committee(s, LongestName(s), [])
  }

  /** Whatever the earlier rounds left behind, ranking a round on a committee
      with the connected names gives what ranking the fresh reports gives:
      the board is recomputed from the replies alone. */
  lemma RoundFromAnyState(c: Committee, names: seq<string>, chair: Tsp.Table, reply: seq<Tour>)
    requires Replies(chair, |names|, reply) && Valid(c) && |c.stakeholders| == |names|
    requires forall j :: 0 <= j < |names| ==> c.stakeholders[j].name == names[j]
    ensures FindTopSolutions(ReceiveAll(c, reply), chair, TopCount) == FindTopSolutions(Reporting(names, reply), chair, TopCount)
  {
    var mine, theirs := ReceiveAll(c, reply), Reporting(names, reply);
    assert mine.stakeholders == theirs.stakeholders;
    assert Results(chair, mine) == Results(chair, theirs);
  }

  /** The seeds a round hands on, described without the ranking code: at
      most `TopCount` of the round's tours, pairwise different, ascending by
      cost on the chair's table, non-empty when anybody replied, and every
      reply either among them or (on a full board) no cheaper than the last. */
  predicate Board(chair: Tsp.Table, reply: seq<Tour>, seeds: seq<Tour>)
    requires forall j :: 0 <= j < |reply| ==> Tsp.ValidTour(chair, reply[j])
  {
    && |seeds| <= TopCount
    && (forall a :: 0 <= a < |seeds| ==> Among(reply, seeds[a]))
    && (forall a :: 0 <= a < |seeds| ==> Tsp.ValidTour(chair, seeds[a]))
    && (forall a, b :: 0 <= a < b < |seeds| ==> seeds[a] != seeds[b])
    && (forall a, b :: 0 <= a < b < |seeds| ==> Tsp.Total(chair, seeds[a]) <= Tsp.Total(chair, seeds[b]))
    && (forall j :: 0 <= j < |reply| ==>
          Among(seeds, reply[j])
          || (|seeds| == TopCount && Tsp.Total(chair, reply[j]) >= Tsp.Total(chair, seeds[TopCount - 1])))
    && (|reply| > 0 ==> |seeds| > 0)
  }

  /** The seeds a round hands on, as a function of its replies alone:
      ranking a committee that holds exactly the replies. */
  function Seeds(names: seq<string>, chair: Tsp.Table, reply: seq<Tour>): (seeds: seq<Tour>)
    requires Replies(chair, |names|, reply)
    ensures Board(chair, reply, seeds)
  {
    RankingIsBoard(Reporting(names, reply), chair, reply);
    FindTopSolutions(Reporting(names, reply), chair, TopCount).1
  }

  /** Where the seeds come from: `top[a]` is the stakeholder whose reply is
      `seeds[a]` and the first to report that tour; equal-cost seeds keep the
      stakeholders' order; and a reply left off a full board at the cut-off
      cost comes after every seed of that cost. */
  predicate Positions(chair: Tsp.Table, reply: seq<Tour>, top: seq<nat>, seeds: seq<Tour>)
    requires forall j :: 0 <= j < |reply| ==> Tsp.ValidTour(chair, reply[j])
  {
    && |top| == |seeds| && Indices(top, |reply|)
    && (forall a :: 0 <= a < |seeds| ==> seeds[a] == reply[top[a]])
    && (forall a, j :: 0 <= a < |seeds| && 0 <= j < top[a] ==> reply[j] != seeds[a])
    && (forall a, b :: 0 <= a < b < |seeds| && Tsp.Total(chair, seeds[a]) == Tsp.Total(chair, seeds[b]) ==> top[a] < top[b])
    && (|seeds| == TopCount ==>
          forall j, a ::
            0 <= j < |reply| && 0 <= a < |seeds| && !Among(seeds, reply[j])
            && Tsp.Total(chair, reply[j]) == Tsp.Total(chair, seeds[TopCount - 1])
            && Tsp.Total(chair, seeds[a]) == Tsp.Total(chair, seeds[TopCount - 1])
            ==> top[a] < j)
  }

  /** What the loop has broadcast after `r` rounds, `history[q]` being the
      seeds ranked in round `q`. */
  predicate Broadcast(sent: seq<Message>, payload: InitPayload, history: seq<seq<Tour>>, r: nat)
    requires r <= |history| + 1
  {
    && |sent| == 2 * r
    && (forall q :: 0 <= q < r ==> sent[2 * q + 1] == ReqResult)
    && (forall q :: 0 <= q < r ==> sent[2 * q] == if q == 0 then Init(payload) else Continue(history[q - 1]))
  }

  /** The broadcast log after `r` rounds, built from the seeds history. */
  function Schedule(payload: InitPayload, history: seq<seq<Tour>>, r: nat): (sent: seq<Message>)
    requires r <= |history| + 1
    ensures Broadcast(sent, payload, history, r)
  {
    seq(2 * r, m requires 0 <= m < 2 * r =>
      if m % 2 == 1 then ReqResult else if m == 0 then Init(payload) else Continue(history[m / 2 - 1]))
  }

  /** The command opening the round after the rounds in `history`: the
      problem itself first, then the previous round's seeds. */
  function Command(payload: InitPayload, history: seq<seq<Tour>>): (m: Message)
    ensures m != Stop && m != ReqResult
  {
    if |history| == 0 then Init(payload) else Continue(history[|history| - 1])
  }

  /** One more round appends its command and the result request, and the
      seeds it records do not change what was already sent. */
  lemma ScheduleStep(payload: InitPayload, history: seq<seq<Tour>>, seeds: seq<Tour>)
    ensures Schedule(payload, history, |history|) + [Command(payload, history), ReqResult]
         == Schedule(payload, history + [seeds], |history| + 1)
  {
    var r := |history|;
    var before, after := Schedule(payload, history, r), Schedule(payload, history + [seeds], r + 1);
    forall m | 0 <= m < 2 * r ensures after[m] == before[m] {
      if m % 2 == 0 && m != 0 {
        assert (history + [seeds])[m / 2 - 1] == history[m / 2 - 1];
      }
    }
    assert after[2 * r] == Command(payload, history);
  }

  /** The whole log of a run of `r` rounds: the rounds' commands and
      requests, then one stop command and no other. */
  lemma StopAppended(payload: InitPayload, history: seq<seq<Tour>>, r: nat)
    requires 0 < r <= |history| + 1
    ensures var sent := Schedule(payload, history, r) + [Stop];
      && |sent| == 2 * r + 1 && sent[|sent| - 1] == Stop
      && (forall m :: 0 <= m < |sent| - 1 ==> sent[m] != Stop)
      && (forall q :: 0 <= q < r ==> sent[2 * q + 1] == ReqResult)
      && sent[0] == Init(payload)
      && (forall q :: 1 <= q < r ==> sent[2 * q] == Continue(history[q - 1]))
  {
    var rounds := Schedule(payload, history, r);
    var sent := rounds + [Stop];
    forall m | 0 <= m < |sent| - 1 ensures sent[m] == rounds[m] && sent[m] != Stop {
      var q := m / 2;
      if m == 2 * q {
        assert rounds[2 * q] == if q == 0 then Init(payload) else Continue(history[q - 1]);
      } else {
        assert m == 2 * q + 1;
      }
    }
    assert rounds[2 * 0] == Init(payload);
  }

  /** Every recorded round's seeds are the ones its replies rank. */
  predicate Boards(names: seq<string>, chair: Tsp.Table, replies: seq<seq<Tour>>, history: seq<seq<Tour>>)
    requires AllReplies(chair, |names|, replies) && |history| <= |replies|
  {
    forall q :: 0 <= q < |history| ==> history[q] == Seeds(names, chair, replies[q])
  }

  /** Recording one more round's seeds keeps every recorded round right. */
  lemma BoardsStep(names: seq<string>, chair: Tsp.Table, replies: seq<seq<Tour>>, history: seq<seq<Tour>>, seeds: seq<Tour>)
    requires |history| < |replies| && AllReplies(chair, |names|, replies)
    requires Boards(names, chair, replies, history) && seeds == Seeds(names, chair, replies[|history|])
    ensures Boards(names, chair, replies, history + [seeds])
  {
    var next := history + [seeds];
    forall q | 0 <= q < |next| ensures next[q] == Seeds(names, chair, replies[q]) {
      if q < |history| {
        assert next[q] == history[q];
      }
    }
  }

  /** Each round after the first opens with the seeds the previous round's
      replies rank. */
  lemma ScheduleSeeds(names: seq<string>, chair: Tsp.Table, payload: InitPayload,
                      replies: seq<seq<Tour>>, history: seq<seq<Tour>>)
    requires AllReplies(chair, |names|, replies) && |history| == |replies|
    requires Boards(names, chair, replies, history)
    ensures forall r :: 1 <= r < |replies| ==>
      Schedule(payload, history, |replies|)[2 * r] == Continue(Seeds(names, chair, replies[r - 1]))
  {
    var sent := Schedule(payload, history, |replies|);
    forall r | 1 <= r < |replies| ensures sent[2 * r] == Continue(Seeds(names, chair, replies[r - 1])) {
      assert sent[2 * r] == Continue(history[r - 1]);
    }
  }

  /** The committee after a round in which somebody replied: each
      stakeholder holds its reply and the board leads with a cheapest one. */
  predicate Ranked(c: Committee, names: seq<string>, chair: Tsp.Table, reply: seq<Tour>)
    requires Replies(chair, |names|, reply)
  {
    && |c.stakeholders| == |names| && c.top != [] && Cheapest(chair, reply, c.top[0])
    && forall j :: 0 <= j < |names| ==> c.stakeholders[j] == Stakeholder(names[j], Some(reply[j]))
  }

  /** The accept loop: one stakeholder per connected name, in order, none
      with a result yet. */
  method Connect(names: seq<string>) returns (c: Committee)
    ensures Valid(c) && |c.stakeholders| == |names| && c.top == []
    ensures forall j :: 0 <= j < |names| ==> c.stakeholders[j] == Stakeholder(names[j], None)
  {
    c := NewCommittee();
    var i := 0;
    while i < |names|
      invariant i <= |names| && Valid(c) && |c.stakeholders| == i && c.top == []
      invariant forall j :: 0 <= j < i ==> c.stakeholders[j] == Stakeholder(names[j], None)
    {
      c := Add(c, names[i]);
      i := i + 1;
    }
  }

  /** A committee holding this round's replies, stakeholder by stakeholder. */
  predicate Holding(c: Committee, reply: seq<Tour>) {
    |c.stakeholders| == |reply| && forall j :: 0 <= j < |reply| ==> c.stakeholders[j].lastResult == Some(reply[j])
  }

  /** Ranking a committee that holds this round's replies yields the
      round's board. */
  lemma RankingIsBoard(c: Committee, chair: Tsp.Table, reply: seq<Tour>)
    requires Holding(c, reply) && forall j :: 0 <= j < |reply| ==> Tsp.ValidTour(chair, reply[j])
    ensures Reported(chair, c) && Board(chair, reply, FindTopSolutions(c, chair, TopCount).1)
  {
    RankingDrawn(c, chair, reply);
    FindTopOrdered(c, chair, TopCount);
    RankingCovers(c, chair, reply);
  }

  /** The ranked tours are at most `TopCount` of the round's replies. */
  lemma RankingDrawn(c: Committee, chair: Tsp.Table, reply: seq<Tour>)
    requires Holding(c, reply) && forall j :: 0 <= j < |reply| ==> Tsp.ValidTour(chair, reply[j])
    ensures Reported(chair, c)
    ensures var best := FindTopSolutions(c, chair, TopCount).1;
      && |best| <= TopCount
      && forall a :: 0 <= a < |best| ==> Among(reply, best[a]) && Tsp.ValidTour(chair, best[a])
  {
    var result := FindTopSolutions(c, chair, TopCount);
    var best := result.1;
    forall a | 0 <= a < |best| ensures Among(reply, best[a]) && Tsp.ValidTour(chair, best[a]) {
      assert Some(best[a]) == c.stakeholders[result.0.top[a]].lastResult;
    }
  }

  /** Every reply is among the ranked tours or no cheaper than the last of
      a full board, and somebody replying leaves the board non-empty. */
  lemma RankingCovers(c: Committee, chair: Tsp.Table, reply: seq<Tour>)
    requires Holding(c, reply) && forall j :: 0 <= j < |reply| ==> Tsp.ValidTour(chair, reply[j])
    ensures Reported(chair, c)
    ensures var best := FindTopSolutions(c, chair, TopCount).1;
      && (forall j :: 0 <= j < |reply| ==>
            Among(best, reply[j])
            || (|best| == TopCount && Tsp.Total(chair, reply[j]) >= Tsp.Total(chair, best[TopCount - 1])))
      && (|reply| > 0 ==> |best| > 0)
  {
    FindTopCovers(c, chair, TopCount);
    assert forall j :: 0 <= j < |reply| ==> c.stakeholders[j].lastResult.value == reply[j];
  }

  /** With anybody replying, the board's first entry is a cheapest reply. */
  lemma RankingLeader(c: Committee, chair: Tsp.Table, reply: seq<Tour>)
    requires Holding(c, reply) && forall j :: 0 <= j < |reply| ==> Tsp.ValidTour(chair, reply[j])
    requires |reply| > 0
    ensures Reported(chair, c)
    ensures var result := FindTopSolutions(c, chair, TopCount);
      result.0.top != [] && Cheapest(chair, reply, result.0.top[0])
  {
    var result := FindTopSolutions(c, chair, TopCount);
    FindTopCovers(c, chair, TopCount);
    FindTopCheapest(c, chair, TopCount);
    assert Some(result.1[0]) == c.stakeholders[result.0.top[0]].lastResult;
    assert forall j :: 0 <= j < |reply| ==> c.stakeholders[j].lastResult.value == reply[j];
  }

  /** Ranking a committee that holds this round's replies places each seed
      at the stakeholder that first reported it, ties broken as the ranking
      loop breaks them. */
  lemma RankingPositions(c: Committee, chair: Tsp.Table, reply: seq<Tour>)
    requires Holding(c, reply) && forall j :: 0 <= j < |reply| ==> Tsp.ValidTour(chair, reply[j])
    ensures Reported(chair, c)
    ensures var result := FindTopSolutions(c, chair, TopCount); Positions(chair, reply, result.0.top, result.1)
  {
    var result := FindTopSolutions(c, chair, TopCount);
    assert forall j :: 0 <= j < |reply| ==> c.stakeholders[j].lastResult.value == reply[j];
    FindTopOrdered(c, chair, TopCount);
    FindTopFirstSeen(c, chair, TopCount);
    FindTopCutoff(c, chair, TopCount);
    forall a | 0 <= a < |result.1| ensures result.1[a] == reply[result.0.top[a]] {
      assert Some(result.1[a]) == c.stakeholders[result.0.top[a]].lastResult;
    }
  }

  /** One round on the live committee (`recv_from_all`, then
      `find_top_solutions`): every stakeholder's last result becomes its
      reply; the seeds are the ones the replies alone rank, whatever the
      earlier rounds left on the board, each taken from the stakeholder the
      new board names; and with anybody connected the board's first entry is
      a cheapest reply. */
  method PlayRound(c: Committee, names: seq<string>, chair: Tsp.Table, reply: seq<Tour>)
    returns (c': Committee, seeds: seq<Tour>)
    requires Replies(chair, |names|, reply) && Valid(c) && |c.stakeholders| == |names|
    requires forall j :: 0 <= j < |names| ==> c.stakeholders[j].name == names[j]
    ensures Valid(c') && |c'.stakeholders| == |names|
    ensures forall j :: 0 <= j < |names| ==> c'.stakeholders[j] == Stakeholder(names[j], Some(reply[j]))
    ensures seeds == Seeds(names, chair, reply) && Board(chair, reply, seeds)
    ensures Positions(chair, reply, c'.top, seeds)
    ensures |names| > 0 ==> Ranked(c', names, chair, reply)
  {
    var received := ReceiveAll(c, reply);
    ReceiveSeats(c, names, reply);
    RoundFromAnyState(c, names, chair, reply);
    RankingPositions(received, chair, reply);
    if |names| > 0 {
      RankingLeader(received, chair, reply);
    }
    var result := FindTopSolutions(received, chair, TopCount);
    c', seeds := result.0, result.1;
    assert c'.stakeholders == received.stakeholders;
  }

  /** Collecting the replies seats every stakeholder with its own reply and
      keeps the committee well-formed. */
  lemma ReceiveSeats(c: Committee, names: seq<string>, reply: seq<Tour>)
    requires Valid(c) && |c.stakeholders| == |names| == |reply|
    requires forall j :: 0 <= j < |names| ==> c.stakeholders[j].name == names[j]
    ensures var received := ReceiveAll(c, reply);
      && Valid(received) && Holding(received, reply) && |received.stakeholders| == |names|
      && forall j :: 0 <= j < |names| ==> received.stakeholders[j] == Stakeholder(names[j], Some(reply[j]))
  {
  }

  /** The rounds of `server_func` on the connected committee: each round
      broadcasts its command, collects the replies and ranks them. With
      nobody connected the first round fails once ranked, as the round's
      report reads the first entry of an empty board; that is decided
      before any round is ranked. */
  method PlayRounds(c0: Committee, names: seq<string>, payload: InitPayload, replies: seq<seq<Tour>>)
    returns (sent: seq<Message>, c: Committee, history: seq<seq<Tour>>, completed: bool)
    requires AllReplies(payload.chairWeights, |names|, replies)
    requires Valid(c0) && |c0.stakeholders| == |names|
    requires forall j :: 0 <= j < |names| ==> c0.stakeholders[j].name == names[j]
    ensures completed <==> (|replies| == 0 || |names| > 0)
    ensures !completed ==> sent == [Init(payload), ReqResult]
    ensures completed ==>
      && |history| == |replies| && sent == Schedule(payload, history, |replies|)
      && Boards(names, payload.chairWeights, replies, history)
      && Valid(c) && |c.stakeholders| == |names|
      && (|replies| > 0 ==> Replies(payload.chairWeights, |names|, replies[|replies| - 1])
                            && Ranked(c, names, payload.chairWeights, replies[|replies| - 1])
                            && Positions(payload.chairWeights, replies[|replies| - 1], c.top, history[|replies| - 1]))
  {
    c, history := c0, [];
    if |replies| > 0 && |names| == 0 {
      sent, completed := [Init(payload), ReqResult], false;
      return;
    }
    var chair := payload.chairWeights;
    sent := [];
    var r := 0;
    while r < |replies|
      invariant 0 <= r <= |replies| && |history| == r && (|replies| > 0 ==> |names| > 0)
      invariant sent == Schedule(payload, history, r)
      invariant Boards(names, chair, replies, history)
      invariant Valid(c) && |c.stakeholders| == |names|
      invariant forall j :: 0 <= j < |names| ==> c.stakeholders[j].name == names[j]
      invariant r > 0 ==> Ranked(c, names, chair, replies[r - 1])
      invariant r > 0 ==> Positions(chair, replies[r - 1], c.top, history[r - 1])
    {
      sent := sent + [Command(payload, history), ReqResult];
      var seeds;
      c, seeds := PlayRound(c, names, chair, replies[r]);
      ScheduleStep(payload, history, seeds);
      BoardsStep(names, chair, replies, history, seeds);
      history := history + [seeds];
      r := r + 1;
    }
    completed := true;
  }

  /** Stakeholder `w` is the first to have sent the final round's leading
      seed. */
  predicate Winner(names: seq<string>, chair: Tsp.Table, reply: seq<Tour>, w: nat)
    requires Replies(chair, |names|, reply)
  {
    var seeds := Seeds(names, chair, reply);
    && |seeds| > 0 && w < |reply| && reply[w] == seeds[0]
    && forall j :: 0 <= j < w ==> reply[j] != seeds[0]
  }

  /** The board's first stakeholder is the first to have sent the leading
      seed. */
  lemma WinnerFromPositions(names: seq<string>, chair: Tsp.Table, reply: seq<Tour>, top: seq<nat>, seeds: seq<Tour>)
    requires Replies(chair, |names|, reply) && |reply| > 0
    requires seeds == Seeds(names, chair, reply) && Positions(chair, reply, top, seeds)
    ensures |top| > 0 && Winner(names, chair, reply, top[0])
  {
  }

  /** `server_func`: the broadcast schedule, the committee's final state and
      how the run ends, given the connected names and every round's replies. */
  method ServerFunc(names: seq<string>, distanceNorm: Tsp.Table, timeNorm: Tsp.Table,
                    distance: Tsp.Table, time: Tsp.Table, distanceWeight: real, timeWeight: real,
                    replies: seq<seq<Tour>>)
    returns (sent: seq<Message>, c: Committee, outcome: Outcome)
    requires Tsp.SameShape(distanceNorm, timeNorm)
    requires AllReplies(Tsp.WeightedTable(distanceWeight, timeWeight, distanceNorm, timeNorm), |names|, replies)
    ensures var chair := Tsp.WeightedTable(distanceWeight, timeWeight, distanceNorm, timeNorm);
      var payload := InitPayload(distanceNorm, timeNorm, distance, time, chair);
      && (|replies| == 0 ==> sent == [Stop] && outcome == Failed)
      && (|replies| > 0 && |names| == 0 ==> sent == [Init(payload), ReqResult] && outcome == Failed)
      && (|replies| > 0 && |names| > 0 ==>
            && |sent| == 2 * |replies| + 1 && sent[|sent| - 1] == Stop
            && (forall m :: 0 <= m < |sent| - 1 ==> sent[m] != Stop)
            && (forall r :: 0 <= r < |replies| ==> sent[2 * r + 1] == ReqResult)
            && sent[0] == Init(payload)
            && (forall r :: 1 <= r < |replies| ==> sent[2 * r] == Continue(Seeds(names, chair, replies[r - 1])))
            && outcome.Finished?
            && Replies(chair, |names|, replies[|replies| - 1]) && |c.stakeholders| == |names|
            && (forall j :: 0 <= j < |names| ==>
                  c.stakeholders[j] == Stakeholder(names[j], Some(replies[|replies| - 1][j])))
            && Cheapest(chair, replies[|replies| - 1], outcome.winner)
            && Winner(names, chair, replies[|replies| - 1], outcome.winner))
  {
    var chair := Tsp.WeightedTable(distanceWeight, timeWeight, distanceNorm, timeNorm);
    var payload := InitPayload(distanceNorm, timeNorm, distance, time, chair);
    c := Connect(names);
    var history, completed;
    sent, c, history, completed := PlayRounds(c, names, payload, replies);
    if !completed {
      outcome := Failed;
      return;
    }
    if |replies| > 0 {
      StopAppended(payload, history, |replies|);
      ScheduleSeeds(names, chair, payload, replies, history);
    }
    sent := sent + [Stop];
    if |replies| == 0 {
      outcome := Failed;
    } else {
      var best := GetBestSolution(c, chair);
      outcome := Finished(best.1);
      WinnerFromPositions(names, chair, replies[|replies| - 1], c.top, history[|replies| - 1]);
    }
  }
}
