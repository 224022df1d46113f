/** Routing: a point is dispatched to the sinks of its matching rules, and what no sink
    takes goes to the dead-letter sink. The rule engine is a function of the point, and the
    sink registry may answer a call by everything asked of it before. */
module Router {
  import opened DataPoints

  datatype Match = Match(matched: bool, priority: nat, targets: seq<string>)

  datatype Strategy = Failover | RoundRobin

  /** What the sink registry is asked to do. */
  datatype Call = Balanced(targets: seq<string>, point: Point, strategy: Strategy) | Direct(sink: string, point: Point)

  datatype Outcome = Routed | InvalidState | NoMatchingRule | AllSinksFailed

  /** evaluate is the rule engine. registry says whether a call succeeds after the calls
      made before it. */
  datatype Config = Config(
    deadLetters: bool, deadLetterSink: string,
    evaluate: Point -> seq<Match>, registry: (seq<Call>, Call) -> bool)

  const HIGH_PRIORITY: nat := 192

  // ------------------------------------------------------------- what is attempted

  function Strategized(m: Match): Strategy {
    if m.priority >= HIGH_PRIORITY then Failover else RoundRobin
  }

  predicate Attempted(m: Match) {
    m.matched && m.targets != []
  }

  /** The sink writes for the matches of a point, in the order of the matches. */
  function Attempts(matches: seq<Match>, p: Point): seq<Call> {
    if matches == [] then []
    else
      var m := matches[|matches| - 1];
      Attempts(matches[..|matches| - 1], p)
      + if Attempted(m) then [Balanced(m.targets, p, Strategized(m))] else []
  }

  /** Some of the calls, made in this order after the earlier ones, succeeds. */
  ghost predicate SomeSucceeds(c: Config, earlier: seq<Call>, calls: seq<Call>) {
    exists k :: 0 <= k < |calls| && c.registry(earlier + calls[..k], calls[k])
  }

  ghost predicate NoneSucceeds(c: Config, earlier: seq<Call>, calls: seq<Call>) {
    calls != [] && !SomeSucceeds(c, earlier, calls)
  }

  /** The calls one point gives rise to after the earlier ones. */
  ghost function Issued(c: Config, earlier: seq<Call>, p: Point): seq<Call> {
    var matches := c.evaluate(p);
    var attempts := Attempts(matches, p);
    attempts + if c.deadLetters && (matches == [] || NoneSucceeds(c, earlier, attempts))
               then [Direct(c.deadLetterSink, p)] else []
  }

  /** The rule engine evaluates a batch point by point. */
  function EvaluateBatch(c: Config, batch: seq<Point>): (r: seq<seq<Match>>)
    ensures |r| == |batch| && forall i | 0 <= i < |batch| :: r[i] == c.evaluate(batch[i])
  {
    if batch == [] then []
    else EvaluateBatch(c, batch[..|batch| - 1]) + [c.evaluate(batch[|batch| - 1])]
  }

  /** Routing a point reports a failure. */
  ghost predicate Fails(c: Config, earlier: seq<Call>, p: Point) {
    NoneSucceeds(c, earlier, Attempts(c.evaluate(p), p))
  }

  /** What route returns. */
  ghost function RouteOutcome(c: Config, earlier: seq<Call>, p: Point): Outcome {
    if Fails(c, earlier, p) then AllSinksFailed
    else if c.evaluate(p) == [] && !c.deadLetters then NoMatchingRule
    else Routed
  }

  /** All calls, once the points have been routed one after the other. */
  ghost function AfterEach(c: Config, earlier: seq<Call>, points: seq<Point>): seq<Call> {
    if points == [] then earlier
    else
      var n := |points| - 1;
      var calls := AfterEach(c, earlier, points[..n]);
      calls + Issued(c, calls, points[n])
  }

  lemma OneMoreMatch(matches: seq<Match>, p: Point, i: nat)
    requires i < |matches|
    ensures var m := matches[i];
      Attempts(matches[..i + 1], p)
      == if Attempted(m) then Attempts(matches[..i], p) + [Balanced(m.targets, p, Strategized(m))]
                                       else Attempts(matches[..i], p)
  {
    assert matches[..i + 1][..i] == matches[..i];
    assert Attempts(matches[..i], p) + [] == Attempts(matches[..i], p);
  }

  lemma NothingAttempted(c: Config, earlier: seq<Call>, p: Point)
    ensures Attempts([], p) == [] && !SomeSucceeds(c, earlier, [])
  {
  }

  lemma IssuedMeans(c: Config, earlier: seq<Call>, p: Point)
    ensures c.evaluate(p) == []
            ==> earlier + Issued(c, earlier, p)
                == (if c.deadLetters then earlier + [Direct(c.deadLetterSink, p)] else earlier)
                && !Fails(c, earlier, p)
    ensures c.evaluate(p) != [] ==>
      var attempts := Attempts(c.evaluate(p), p);
      && Fails(c, earlier, p) == NoneSucceeds(c, earlier, attempts)
      && earlier + Issued(c, earlier, p)
         == earlier + attempts + if Fails(c, earlier, p) && c.deadLetters then [Direct(c.deadLetterSink, p)] else []
  {
    hide SomeSucceeds;
  }

  lemma SomeSucceedsMore(c: Config, earlier: seq<Call>, calls: seq<Call>, call: Call)
    ensures SomeSucceeds(c, earlier, calls + [call])
        <==> SomeSucceeds(c, earlier, calls) || c.registry(earlier + calls, call)
  {
    var more := calls + [call];
    assert forall k | 0 <= k <= |calls| :: more[..k] == calls[..k];
    assert calls[..|calls|] == calls && more[|calls|] == call;
    if SomeSucceeds(c, earlier, calls) {
      var k :| 0 <= k < |calls| && c.registry(earlier + calls[..k], calls[k]);
      assert more[k] == calls[k];
    }
    if c.registry(earlier + calls, call) {
      assert c.registry(earlier + more[..|calls|], more[|calls|]);
    }
  }

  // ------------------------------------------------------------------ the router

  class Router {
    const config: Config
    var running: bool
    var calls: seq<Call>

    constructor (c: Config)
      ensures config == c && !running && calls == []
    {
      config, running, calls := c, false, [];
    }

    method Ask(call: Call) returns (success: bool)
      modifies this`calls
      ensures success == config.registry(old(calls), call) && calls == old(calls) + [call]
    {
      success := config.registry(calls, call);
      calls := calls + [call];
    }

    method DispatchToSinks(p: Point, matches: seq<Match>) returns (outcome: Outcome)
      modifies this`calls
      ensures var attempts := Attempts(matches, p);
        var failed := NoneSucceeds(config, old(calls), attempts);
        && outcome == (if failed then AllSinksFailed else Routed)
        && calls == old(calls) + attempts
                    + if failed && config.deadLetters then [Direct(config.deadLetterSink, p)] else []
    {
      var anySuccess, anyFailed := false, false;
      hide SomeSucceeds, Attempts;
      NothingAttempted(config, calls, p);
      for i := 0 to |matches|
        invariant var attempts := Attempts(matches[..i], p);
          && calls == old(calls) + attempts
          && anySuccess == SomeSucceeds(config, old(calls), attempts)
          && (attempts == [] ==> !anyFailed) && (attempts != [] ==> anySuccess || anyFailed)
      {
        ghost var attempts := Attempts(matches[..i], p);
        OneMoreMatch(matches, p, i);
        if matches[i].matched && matches[i].targets != [] {
          var strategy := if matches[i].priority >= HIGH_PRIORITY then Failover else RoundRobin;
          var call := Balanced(matches[i].targets, p, strategy);
          SomeSucceedsMore(config, old(calls), attempts, call);
          var success := Ask(call);
          if success {
            anySuccess := true;
          } else {
            anyFailed := true;
          }
        }
      }
      assert matches[..|matches|] == matches;
      if anySuccess {
        return Routed;
      }
      if anyFailed {
        if config.deadLetters {
          var _ := Ask(Direct(config.deadLetterSink, p));
        }
        return AllSinksFailed;
      }
      return Routed;
    }

    method Route(p: Point) returns (outcome: Outcome)
      modifies this`calls
      ensures !running ==> outcome == InvalidState && calls == old(calls)
      ensures running ==> calls == old(calls) + Issued(config, old(calls), p)
      ensures running ==> outcome == RouteOutcome(config, old(calls), p)
    {
      if !running {
        return InvalidState;
      }
      var matches := config.evaluate(p);
      if matches == [] {
        if config.deadLetters {
          var _ := Ask(Direct(config.deadLetterSink, p));
          return Routed;
        }
        return NoMatchingRule;
      }
      hide NoneSucceeds, Attempts;
      outcome := DispatchToSinks(p, matches);
    }

    /** The same calls in the same order as routing each point in turn. */
    method RouteBatch(batch: seq<Point>) returns (outcome: Outcome)
      modifies this`calls
      ensures !running ==> outcome == InvalidState && calls == old(calls)
      ensures running ==> calls == AfterEach(config, old(calls), batch)
      ensures running ==> outcome == if SomeFails(config, old(calls), batch) then AllSinksFailed else Routed
    {
      if !running {
        return InvalidState;
      }
      if batch == [] {
        return Routed;
      }
      hide *;
      var allMatches := EvaluateBatch(config, batch);
      var failedCount := 0;
      NothingRouted(config, calls);
      for i := 0 to |batch|
        invariant calls == AfterEach(config, old(calls), batch[..i])
        invariant failedCount > 0 <==> SomeFails(config, old(calls), batch[..i])
      {
        OneMoreInBatch(config, old(calls), batch, i);
        IssuedMeans(config, calls, batch[i]);
        if allMatches[i] == [] {
          if config.deadLetters {
            var _ := Ask(Direct(config.deadLetterSink, batch[i]));
          }
          continue;
        }
        var result := DispatchToSinks(batch[i], allMatches[i]);
        if result != Routed {
          failedCount := failedCount + 1;
        }
      }
      assert batch[..|batch|] == batch;
      return if failedCount > 0 then AllSinksFailed else Routed;
    }

    /** The reference for RouteBatch: route, for each point in turn. */
    method RouteEach(batch: seq<Point>)
      requires running
      modifies this`calls
      ensures running && calls == AfterEach(config, old(calls), batch)
    {
      for i := 0 to |batch|
        invariant running && calls == AfterEach(config, old(calls), batch[..i])
      {
        OneMoreInBatch(config, old(calls), batch, i);
        hide AfterEach, Issued;
        var _ := Route(batch[i]);
      }
      assert batch[..|batch|] == batch;
    }
  }

  /** Some point of the batch fails when its turn comes. */
  ghost predicate SomeFails(c: Config, earlier: seq<Call>, batch: seq<Point>) {
    exists i :: 0 <= i < |batch| && Fails(c, AfterEach(c, earlier, batch[..i]), batch[i])
  }

  lemma OneMoreInBatch(c: Config, earlier: seq<Call>, batch: seq<Point>, i: nat)
    requires i < |batch|
    ensures var calls := AfterEach(c, earlier, batch[..i]);
      && AfterEach(c, earlier, batch[..i + 1]) == calls + Issued(c, calls, batch[i])
      && (SomeFails(c, earlier, batch[..i + 1]) <==> SomeFails(c, earlier, batch[..i]) || Fails(c, calls, batch[i]))
  {
    hide *;
    var more := batch[..i + 1];
    assert more[..i] == batch[..i] && more[i] == batch[i];
    LastOfBatch(c, earlier, more);
    LastFails(c, earlier, more);
  }

  lemma LastFails(c: Config, earlier: seq<Call>, batch: seq<Point>)
    requires batch != []
    ensures var n := |batch| - 1;
      SomeFails(c, earlier, batch)
      <==> SomeFails(c, earlier, batch[..n]) || Fails(c, AfterEach(c, earlier, batch[..n]), batch[n])
  {
    hide AfterEach, Fails;
    var n := |batch| - 1;
    var some := batch[..n];
    if i :| 0 <= i < |batch| && Fails(c, AfterEach(c, earlier, batch[..i]), batch[i]) {
      assert i < n ==> some[..i] == batch[..i] && some[i] == batch[i];
    }
    if i :| 0 <= i < n && Fails(c, AfterEach(c, earlier, some[..i]), some[i]) {
      assert some[..i] == batch[..i] && some[i] == batch[i];
    }
  }

  lemma NothingRouted(c: Config, earlier: seq<Call>)
    ensures AfterEach(c, earlier, []) == earlier && !SomeFails(c, earlier, [])
  {
  }

  lemma LastOfBatch(c: Config, earlier: seq<Call>, batch: seq<Point>)
    requires batch != []
    ensures var n := |batch| - 1; var calls := AfterEach(c, earlier, batch[..n]);
      AfterEach(c, earlier, batch) == calls + Issued(c, calls, batch[n])
  {
  }

  // ------------------------------------------------------------------ the guarantees

  function DeadLetters(calls: seq<Call>): nat {
    if calls == [] then 0 else DeadLetters(calls[..|calls| - 1]) + if calls[|calls| - 1].Direct? then 1 else 0
  }

  lemma {:induction false} AttemptsAreBalanced(matches: seq<Match>, p: Point)
    ensures DeadLetters(Attempts(matches, p)) == 0
    ensures Attempts(matches, p) == [] <==> forall m | m in matches :: !Attempted(m)
    ensures forall call | call in Attempts(matches, p) :: call.Balanced? && call.point == p
    decreases |matches|
  {
    if matches != [] {
      var n := |matches| - 1;
      AttemptsAreBalanced(matches[..n], p);
      assert matches == matches[..n] + [matches[n]];
      var before := Attempts(matches[..n], p);
      var call := Balanced(matches[n].targets, p, Strategized(matches[n]));
      assert (before + [call])[..|before|] == before && before + [] == before;
    }
  }

  /** Which sink writes are attempted: one for each match that has targets, by failover from
      priority 192 on and in rotation below. */
  lemma {:induction false} AttemptsByPriority(matches: seq<Match>, p: Point, call: Call)
    ensures call in Attempts(matches, p)
       <==> exists m :: m in matches && m.matched && m.targets != []
                        && call == Balanced(m.targets, p, if m.priority >= 192 then Failover else RoundRobin)
    decreases |matches|
  {
    if matches != [] {
      var n := |matches| - 1;
      AttemptsByPriority(matches[..n], p, call);
      assert matches == matches[..n] + [matches[n]];
      var before := Attempts(matches[..n], p);
      assert before + [] == before;
    }
  }

  /** Main result: with the dead-letter queue on, routing a point writes to it once if no
      rule matched, or there were writes to attempt and each of them failed; otherwise it
      does not write to it. With the queue off it never does. */
  lemma DeadLetterExactly(c: Config, earlier: seq<Call>, p: Point)
    ensures DeadLetters(Issued(c, earlier, p))
         == if c.deadLetters && (c.evaluate(p) == [] || Fails(c, earlier, p)) then 1 else 0
  {
    AttemptsAreBalanced(c.evaluate(p), p);
    var attempts := Attempts(c.evaluate(p), p);
    hide Attempts, NoneSucceeds;
    assert attempts + [] == attempts;
    assert (attempts + [Direct(c.deadLetterSink, p)])[..|attempts|] == attempts;
  }

  /** The points that vanish: no sink and no dead-letter queue is asked, and a batch
      reports no failure, exactly when no match can be attempted and either there was one
      all the same or the dead-letter queue is off. Routed alone, such a point is an error
      only if there was no match. */
  lemma OfferedToNoSink(c: Config, earlier: seq<Call>, p: Point)
    ensures Issued(c, earlier, p) == []
        <==> (forall m | m in c.evaluate(p) :: !Attempted(m)) && (c.evaluate(p) != [] || !c.deadLetters)
    ensures Issued(c, earlier, p) == [] ==>
      !Fails(c, earlier, p) && RouteOutcome(c, earlier, p) == if c.evaluate(p) == [] then NoMatchingRule else Routed
  {
    AttemptsAreBalanced(c.evaluate(p), p);
    hide Attempts;
  }

  /** A rule that matches every point and has no targets, with the queue on. */
  function Targetless(): Config {
    Config(true, "dlq", _ => [Match(true, 0, [])], (_, _) => true)
  }

  /** Under it every point vanishes and is reported as routed. */
  lemma TargetlessMatchVanishes(earlier: seq<Call>, p: Point)
    ensures Issued(Targetless(), earlier, p) == [] && RouteOutcome(Targetless(), earlier, p) == Routed
  {
    OfferedToNoSink(Targetless(), earlier, p);
  }

  /** A batch neither adds, loses nor reorders calls when it is cut in two. */
  lemma {:induction false} BatchesConcatenate(c: Config, earlier: seq<Call>, a: seq<Point>, b: seq<Point>)
    ensures AfterEach(c, earlier, a + b) == AfterEach(c, AfterEach(c, earlier, a), b)
    decreases |b|
  {
    hide Issued;
    if b == [] {
      assert a + b == a;
    } else {
      BatchesConcatenate(c, earlier, a, b[..|b| - 1]);
      assert (a + b)[..|a + b| - 1] == a + b[..|b| - 1];
    }
  }
}
