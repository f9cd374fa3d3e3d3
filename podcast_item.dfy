/**
 * The episode throttle of the podcast workflow: on each round it refreshes the status of the
 * running episodes, counts what is running and what is left, starts pending episodes up to the
 * concurrency limit, and decides whether the feed is complete.
 */
module EpisodeThrottle {
  import opened Wrappers

  const RUNNING: string := "RUNNING"
  const PENDING: string := "PENDING"
  const COMPLETE: string := "COMPLETE"

  /** An entry of the episode list: its identifying fields, its status, and the execution
      that processes it once one has been started. */
  datatype Episode = Episode(episode: string, podcastUrl: string, status: string, executionArn: Option<string>)

  /** The statuses of an episode that still needs work. */
  predicate IsRemaining(status: string) {
    status == RUNNING || status == PENDING
  }

  /** The number of episodes whose status satisfies the test. */
  function CountRunning(es: seq<Episode>): (n: nat)
    ensures n <= |es|
    ensures n == 0 <==> forall k :: 0 <= k < |es| ==> es[k].status != RUNNING
    decreases |es|
  {
    if es == [] then 0
    else
      var prefix := es[..|es| - 1];
      assert forall k :: 0 <= k < |prefix| ==> prefix[k] == es[k];
      CountRunning(prefix) + (if es[|es| - 1].status == RUNNING then 1 else 0)
  }

  function CountPending(es: seq<Episode>): (n: nat)
    ensures n <= |es|
    ensures n == 0 <==> forall k :: 0 <= k < |es| ==> es[k].status != PENDING
    decreases |es|
  {
    if es == [] then 0
    else
      var prefix := es[..|es| - 1];
      assert forall k :: 0 <= k < |prefix| ==> prefix[k] == es[k];
      CountPending(prefix) + (if es[|es| - 1].status == PENDING then 1 else 0)
  }

  function CountRemaining(es: seq<Episode>): (n: nat)
    ensures n <= |es|
    ensures n == 0 <==> forall k :: 0 <= k < |es| ==> !IsRemaining(es[k].status)
    decreases |es|
  {
    if es == [] then 0
    else
      var prefix := es[..|es| - 1];
      assert forall k :: 0 <= k < |prefix| ==> prefix[k] == es[k];
      CountRemaining(prefix) + (if IsRemaining(es[|es| - 1].status) then 1 else 0)
  }

  /** The remaining episodes are exactly the running ones and the pending ones. */
  lemma {:induction false} RemainingIsRunningPlusPending(es: seq<Episode>)
    ensures CountRemaining(es) == CountRunning(es) + CountPending(es)
    decreases |es|
  {
    if es != [] {
      RemainingIsRunningPlusPending(es[..|es| - 1]);
    }
  }

  // ---------------------------------------------------------------------------
  // The refresh loop
  // ---------------------------------------------------------------------------

  /** Every running episode has an execution to ask about. */
  predicate RunningHaveExecutions(es: seq<Episode>) {
    forall k :: 0 <= k < |es| && es[k].status == RUNNING ==> es[k].executionArn.Some?
  }

  /** A running episode takes the status its execution reports; any other one is left alone. */
  function Refresh(describeExecution: string -> string, e: Episode): (r: Episode)
    requires e.status == RUNNING ==> e.executionArn.Some?
  {
    if e.status == RUNNING then e.(status := describeExecution(e.executionArn.value)) else e
  }

  function RefreshAll(describeExecution: string -> string, es: seq<Episode>): (r: seq<Episode>)
    requires RunningHaveExecutions(es)
    ensures |r| == |es|
    ensures forall k :: 0 <= k < |es| ==> r[k] == Refresh(describeExecution, es[k])
  {
    seq(|es|, k requires 0 <= k < |es| && RunningHaveExecutions(es) => Refresh(describeExecution, es[k]))
  }

  /** Refreshing changes nothing but statuses, and only those of running episodes. */
  lemma RefreshOnlyTouchesRunning(describeExecution: string -> string, es: seq<Episode>)
    requires RunningHaveExecutions(es)
    ensures var r := RefreshAll(describeExecution, es);
      forall k :: 0 <= k < |es| ==>
        r[k].(status := es[k].status) == es[k] && (es[k].status != RUNNING ==> r[k] == es[k])
  {
  }

  // ---------------------------------------------------------------------------
  // The start loop
  // ---------------------------------------------------------------------------

  /** A pending episode once its execution has been started. */
  function Started(startExecution: Episode -> string, e: Episode): Episode {
    e.(executionArn := Some(startExecution(e)), status := RUNNING)
  }

  /** The episodes after the start loop and the running count it ends with: in list order, a
      pending episode is started while fewer than maxConcurrent executions are running. */
  function Throttle(es: seq<Episode>, running: int, maxConcurrent: int, startExecution: Episode -> string): (r: (seq<Episode>, int))
    ensures |r.0| == |es|
    decreases |es|
  {
    if es == [] then ([], running)
    else
      var before := Throttle(es[..|es| - 1], running, maxConcurrent, startExecution);
      var e := es[|es| - 1];
      if before.1 < maxConcurrent && e.status == PENDING then (before.0 + [Started(startExecution, e)], before.1 + 1)
      else (before.0 + [e], before.1)
  }

  function Min(a: int, b: int): int {
    if a <= b then a else b
  }

  function Max(a: int, b: int): int {
    if a <= b then b else a
  }

  /** The loop starts as many pending episodes as there are free execution slots, and no more
      than there are pending episodes. */
  lemma {:induction false} ThrottleStartsUpToTheLimit(es: seq<Episode>, running: int, maxConcurrent: int, startExecution: Episode -> string)
    ensures Throttle(es, running, maxConcurrent, startExecution).1 - running
         == Min(CountPending(es), Max(0, maxConcurrent - running))
    decreases |es|
  {
    if es != [] {
      ThrottleStartsUpToTheLimit(es[..|es| - 1], running, maxConcurrent, startExecution);
    }
  }

  /** The loop only starts pending episodes: every other entry is kept as it is, and a started
      entry gets its execution and the status RUNNING. */
  lemma {:induction false} ThrottleOnlyStartsPending(es: seq<Episode>, running: int, maxConcurrent: int, startExecution: Episode -> string)
    ensures var r := Throttle(es, running, maxConcurrent, startExecution).0;
      forall k :: 0 <= k < |es| ==>
        r[k] == es[k] || (es[k].status == PENDING && r[k] == Started(startExecution, es[k]))
    decreases |es|
  {
    if es != [] {
      var prefix := es[..|es| - 1];
      ThrottleOnlyStartsPending(prefix, running, maxConcurrent, startExecution);
      var r := Throttle(es, running, maxConcurrent, startExecution).0;
      var rp := Throttle(prefix, running, maxConcurrent, startExecution).0;
      assert r[..|prefix|] == rp;
      forall k | 0 <= k < |prefix| ensures r[k] == rp[k] && prefix[k] == es[k] {
        assert r[..|prefix|][k] == r[k];
      }
    }
  }

  /** Episodes are started in list order: once a pending episode is passed over, no later one
      is started. */
  lemma {:induction false} ThrottleInListOrder(es: seq<Episode>, running: int, maxConcurrent: int, startExecution: Episode -> string)
    ensures var r := Throttle(es, running, maxConcurrent, startExecution);
      && (forall j :: 0 <= j < |es| && es[j].status == PENDING && r.0[j] == es[j] ==> r.1 >= maxConcurrent)
      && (forall j, k :: 0 <= j < k < |es| && es[j].status == PENDING && r.0[j] == es[j] ==> r.0[k] == es[k])
    decreases |es|
  {
    if es != [] {
      var prefix := es[..|es| - 1];
      ThrottleInListOrder(prefix, running, maxConcurrent, startExecution);
      var r := Throttle(es, running, maxConcurrent, startExecution);
      var rp := Throttle(prefix, running, maxConcurrent, startExecution);
      assert r.0[..|prefix|] == rp.0;
      assert r.1 >= rp.1;
      forall k | 0 <= k < |prefix| ensures r.0[k] == rp.0[k] && prefix[k] == es[k] {
        assert r.0[..|prefix|][k] == r.0[k];
      }
      var last := |es| - 1;
      if es[last].status == PENDING && r.0[last] == es[last] {
        assert r.0[last] != Started(startExecution, es[last]);
      }
    }
  }

  /** Starting an episode turns PENDING into RUNNING, so the number of remaining episodes is
      the same before and after the loop. */
  lemma {:induction false} ThrottleKeepsRemaining(es: seq<Episode>, running: int, maxConcurrent: int, startExecution: Episode -> string)
    ensures CountRemaining(Throttle(es, running, maxConcurrent, startExecution).0) == CountRemaining(es)
    decreases |es|
  {
    if es != [] {
      var prefix := es[..|es| - 1];
      ThrottleKeepsRemaining(prefix, running, maxConcurrent, startExecution);
      var r := Throttle(es, running, maxConcurrent, startExecution).0;
      assert r[..|r| - 1] == Throttle(prefix, running, maxConcurrent, startExecution).0;
    }
  }

  /** Once the limit is reached, the rest of the list is left alone; this is what lets the loop
      stop early. */
  lemma {:induction false} ThrottleSaturated(es: seq<Episode>, i: nat, running: int, maxConcurrent: int, startExecution: Episode -> string)
    requires i <= |es| && Throttle(es[..i], running, maxConcurrent, startExecution).1 >= maxConcurrent
    ensures Throttle(es, running, maxConcurrent, startExecution)
         == (Throttle(es[..i], running, maxConcurrent, startExecution).0 + es[i..], Throttle(es[..i], running, maxConcurrent, startExecution).1)
    decreases |es| - i
  {
    if i == |es| {
      assert es[..i] == es;
      assert es[i..] == [];
      assert Throttle(es[..i], running, maxConcurrent, startExecution).0 + es[i..] == Throttle(es[..i], running, maxConcurrent, startExecution).0;
    } else {
      var before := Throttle(es[..i], running, maxConcurrent, startExecution);
      assert es[..i + 1][..i] == es[..i];
      assert Throttle(es[..i + 1], running, maxConcurrent, startExecution) == (before.0 + [es[i]], before.1);
      ThrottleSaturated(es, i + 1, running, maxConcurrent, startExecution);
      assert before.0 + [es[i]] + es[i + 1..] == before.0 + es[i..];
    }
  }

  // ---------------------------------------------------------------------------
  // The round
  // ---------------------------------------------------------------------------

  datatype Outcome = Outcome(feedStatus: string, remainingEpisodes: nat, persisted: bool)

  datatype Error = MissingExecutionArn(index: nat)  // a RUNNING episode without an executionArn

  /** The feed is complete exactly when nothing remains; only an unfinished list is written back. */
  function Decide(remainingEpisodes: nat): (o: Outcome)
    ensures o.feedStatus == COMPLETE <==> remainingEpisodes == 0
    ensures o.feedStatus == COMPLETE || o.feedStatus == RUNNING
    ensures o.persisted <==> o.feedStatus != COMPLETE
    ensures o.remainingEpisodes == remainingEpisodes
  {
    var feedStatus := if remainingEpisodes == 0 then COMPLETE else RUNNING;
    Outcome(feedStatus, remainingEpisodes, feedStatus != COMPLETE)
  }

  /** The feed is complete exactly when, after the refresh, no episode is running or pending. */
  lemma CompleteWhenNothingRemains(describeExecution: string -> string, es: seq<Episode>)
    requires RunningHaveExecutions(es)
    ensures var r := RefreshAll(describeExecution, es);
      Decide(CountRemaining(r)).feedStatus == COMPLETE <==> forall k :: 0 <= k < |r| ==> !IsRemaining(r[k].status)
  {
  }

  /**
   * One round of the throttle over the episode list, updated in place: RUNNING statuses are
   * refreshed from their executions, pending episodes are started while fewer than
   * maxConcurrentEpisodes run, and the outcome says whether the feed is complete and whether
   * the list is written back. A RUNNING episode without an execution ends the round with an
   * error.
   */
  method ProcessPodcastItem(episodes: array<Episode>, maxConcurrentEpisodes: int,
                            describeExecution: string -> string, startExecution: Episode -> string)
    returns (result: Result<Outcome, Error>)
    modifies episodes
    ensures result.Failure? <==> !RunningHaveExecutions(old(episodes[..]))
    ensures result.Success? ==>
      var refreshed := RefreshAll(describeExecution, old(episodes[..]));
      var throttled := Throttle(refreshed, CountRunning(refreshed), maxConcurrentEpisodes, startExecution);
      && episodes[..] == throttled.0
      && result.value == Decide(CountRemaining(refreshed))
  {
    var counts := RefreshStatuses(episodes, describeExecution);
    if counts.Failure? {
      return Failure(counts.error);
    }
    var runningExecutions, remainingEpisodes := counts.value.0, counts.value.1;
    runningExecutions := StartPending(episodes, maxConcurrentEpisodes, runningExecutions, startExecution);
    var feedStatus := RUNNING;
    if remainingEpisodes == 0 {
      feedStatus := COMPLETE;
    }
    result := Success(Outcome(feedStatus, remainingEpisodes, feedStatus != COMPLETE));
  }

  /** The first loop: refreshes the RUNNING episodes and counts the running and the remaining
      ones, or stops at the first RUNNING episode without an execution. */
  method RefreshStatuses(episodes: array<Episode>, describeExecution: string -> string)
    returns (result: Result<(nat, nat), Error>)
    modifies episodes
    ensures result.Failure? <==> !RunningHaveExecutions(old(episodes[..]))
    ensures result.Success? ==>
      var refreshed := RefreshAll(describeExecution, old(episodes[..]));
      && episodes[..] == refreshed
      && result.value == (CountRunning(refreshed), CountRemaining(refreshed))
  {
    ghost var original := episodes[..];
    var runningExecutions := 0;
    var remainingEpisodes := 0;
    for i := 0 to episodes.Length
      invariant RunningHaveExecutions(original[..i])
      invariant episodes[..] == RefreshAll(describeExecution, original[..i]) + original[i..]
      invariant runningExecutions == CountRunning(RefreshAll(describeExecution, original[..i]))
      invariant remainingEpisodes == CountRemaining(RefreshAll(describeExecution, original[..i]))
    {
      var episode := episodes[i];
      assert episode == original[i] by {
        assert (RefreshAll(describeExecution, original[..i]) + original[i..])[i] == original[i..][0];
      }
      if episode.status == RUNNING && episode.executionArn.None? {
        assert !RunningHaveExecutions(original) by {
          assert original[i].status == RUNNING && original[i].executionArn.None?;
        }
        return Failure(MissingExecutionArn(i));
      }
      RefreshOneMore(describeExecution, original, i);
      if episode.status == RUNNING {
        var status := describeExecution(episode.executionArn.value);
        episode := episode.(status := status);
        episodes[i] := episode;
        if episode.status == RUNNING {
          runningExecutions := runningExecutions + 1;
        }
      }
      if episode.status == RUNNING || episode.status == PENDING {
        remainingEpisodes := remainingEpisodes + 1;
      }
    }
    assert original[..episodes.Length] == original;
    assert original[episodes.Length..] == [];
    assert RefreshAll(describeExecution, original) + [] == RefreshAll(describeExecution, original);
    result := Success((runningExecutions, remainingEpisodes));
  }

  /** One more iteration of the refresh loop, on the list as a value. */
  lemma RefreshOneMore(describeExecution: string -> string, original: seq<Episode>, i: nat)
    requires i < |original| && RunningHaveExecutions(original[..i])
    requires original[i].status == RUNNING ==> original[i].executionArn.Some?
    ensures RunningHaveExecutions(original[..i + 1])
    ensures var e := Refresh(describeExecution, original[i]);
      var done := RefreshAll(describeExecution, original[..i]);
      && (done + original[i..])[i := e] == RefreshAll(describeExecution, original[..i + 1]) + original[i + 1..]
      && (original[i].status != RUNNING ==> done + original[i..] == RefreshAll(describeExecution, original[..i + 1]) + original[i + 1..])
      && CountRunning(RefreshAll(describeExecution, original[..i + 1])) == CountRunning(done) + (if e.status == RUNNING then 1 else 0)
      && CountRemaining(RefreshAll(describeExecution, original[..i + 1])) == CountRemaining(done) + (if IsRemaining(e.status) then 1 else 0)
  {
    var e := original[i];
    var done := RefreshAll(describeExecution, original[..i]);
    assert original[..i + 1] == original[..i] + [e];
    assert original[i..] == [e] + original[i + 1..];
    var next := RefreshAll(describeExecution, original[..i + 1]);
    assert next == done + [Refresh(describeExecution, e)];
    assert next[..|next| - 1] == done;
  }

  /** The second loop: starts pending episodes in list order and stops once
      maxConcurrentEpisodes executions are running. */
  method StartPending(episodes: array<Episode>, maxConcurrentEpisodes: int, running: int, startExecution: Episode -> string)
    returns (runningExecutions: int)
    modifies episodes
    ensures (episodes[..], runningExecutions) == Throttle(old(episodes[..]), running, maxConcurrentEpisodes, startExecution)
  {
    ghost var original := episodes[..];
    runningExecutions := running;
    for i := 0 to episodes.Length
      invariant episodes[..] == Throttle(original[..i], running, maxConcurrentEpisodes, startExecution).0 + original[i..]
      invariant runningExecutions == Throttle(original[..i], running, maxConcurrentEpisodes, startExecution).1
    {
      if runningExecutions >= maxConcurrentEpisodes {
        ThrottleSaturated(original, i, running, maxConcurrentEpisodes, startExecution);
        return;
      }
      ThrottleOneMore(original, i, running, maxConcurrentEpisodes, startExecution);
      var episode := episodes[i];
      if episode.status == PENDING {
        var executionArn := startExecution(episode);
        episodes[i] := episode.(executionArn := Some(executionArn), status := RUNNING);
        runningExecutions := runningExecutions + 1;
      }
    }
    assert original[..episodes.Length] == original;
    assert original[episodes.Length..] == [];
    assert Throttle(original, running, maxConcurrentEpisodes, startExecution).0 + []
        == Throttle(original, running, maxConcurrentEpisodes, startExecution).0;
  }

  /** One more iteration of the start loop below the limit, on the list as a value. */
  lemma ThrottleOneMore(original: seq<Episode>, i: nat, running: int, maxConcurrent: int, startExecution: Episode -> string)
    requires i < |original| && Throttle(original[..i], running, maxConcurrent, startExecution).1 < maxConcurrent
    ensures var before := Throttle(original[..i], running, maxConcurrent, startExecution);
      var after := Throttle(original[..i + 1], running, maxConcurrent, startExecution);
      var e := original[i];
      && (before.0 + original[i..])[i] == e
      && (e.status == PENDING ==>
            after == (before.0 + [Started(startExecution, e)], before.1 + 1)
            && (before.0 + original[i..])[i := Started(startExecution, e)] == after.0 + original[i + 1..])
      && (e.status != PENDING ==> after.1 == before.1 && before.0 + original[i..] == after.0 + original[i + 1..])
  {
    assert original[..i + 1][..i] == original[..i];
    assert original[i..] == [original[i]] + original[i + 1..];
  }
}
