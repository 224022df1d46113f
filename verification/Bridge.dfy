/** The bridge: points from its sources go to one sink in turn, or to all of them. Sinks are
    known by their ids, and whether a send or a start succeeds is passed in. */
module RoundRobin {
  import opened Arithmetic

  /** The index after i among n. */
  function Succ(i: nat, n: nat): nat {
    if i + 1 == n then 0 else i + 1
  }

  /** The indices chosen one after the other, beginning with first. */
  ghost predicate IsRotation(turns: seq<nat>, first: nat, n: nat) {
    && (turns != [] ==> turns[0] == first)
    && forall t | 0 <= t < |turns| - 1 :: turns[t + 1] == Succ(turns[t], n)
  }

  /** The index whose turn is next. */
  ghost function Upcoming(turns: seq<nat>, first: nat, n: nat): nat {
    if turns == [] then first else Succ(turns[|turns| - 1], n)
  }

  function Count(turns: seq<nat>, j: nat): nat {
    if turns == [] then 0
    else Count(turns[..|turns| - 1], j) + if turns[|turns| - 1] == j then 1 else 0
  }

  /** How many turns after first it is j's turn. */
  function Distance(first: nat, j: nat, n: nat): (d: nat)
    requires first < n && j < n
    ensures d < n
  {
    if j >= first then j - first else j - first + n
  }

  lemma NextQuotient(k: nat, n: nat)
    requires n > 0
    ensures if k % n + 1 == n then (k + 1) / n == k / n + 1 && (k + 1) % n == 0
            else (k + 1) / n == k / n && (k + 1) % n == k % n + 1
  {
    var q, r := k / n, k % n;
    assert k == q * n + r;
    if r + 1 == n {
      assert (q + 1) * n == q * n + n;
      QuotientUnique(k + 1, n, q + 1, 0);
    } else {
      QuotientUnique(k + 1, n, q, r + 1);
    }
  }

  lemma RotationBefore(turns: seq<nat>, first: nat, n: nat)
    requires turns != [] && IsRotation(turns, first, n)
    ensures IsRotation(turns[..|turns| - 1], first, n)
    ensures turns[|turns| - 1] == Upcoming(turns[..|turns| - 1], first, n)
  {
    var k := |turns| - 1;
    assert k > 0 ==> turns[k - 1 + 1] == Succ(turns[k - 1], n);
  }

  /** Main result: after k turns over n sinks each sink was chosen k / n times, and those
      the last, unfinished round has reached once more, so floor or ceiling of k / n. */
  lemma {:induction false} EachInItsTurn(turns: seq<nat>, first: nat, n: nat, j: nat)
    requires first < n && j < n && IsRotation(turns, first, n)
    ensures Count(turns, j) == |turns| / n + if Distance(first, j, n) < |turns| % n then 1 else 0
    ensures Upcoming(turns, first, n) < n && Distance(first, Upcoming(turns, first, n), n) == |turns| % n
    decreases |turns|
  {
    if turns == [] {
      QuotientUnique(0, n, 0, 0);
    } else {
      var before := turns[..|turns| - 1];
      RotationBefore(turns, first, n);
      EachInItsTurn(before, first, n, j);
      NextQuotient(|before|, n);
      hide IsRotation;
    }
  }

  /** No sink is ever more than one turn ahead of another. */
  lemma AtMostOneAhead(turns: seq<nat>, first: nat, n: nat, i: nat, j: nat)
    requires first < n && i < n && j < n && IsRotation(turns, first, n)
    ensures Count(turns, i) <= Count(turns, j) + 1
  {
    EachInItsTurn(turns, first, n, i);
    EachInItsTurn(turns, first, n, j);
  }

  lemma RotationMore(turns: seq<nat>, first: nat, n: nat)
    requires IsRotation(turns, first, n)
    ensures var i := Upcoming(turns, first, n);
      IsRotation(turns + [i], first, n) && Upcoming(turns + [i], first, n) == Succ(i, n)
  {
  }

  lemma SuccIsModular(i: nat, n: nat)
    requires i < n
    ensures (i + 1) % n == Succ(i, n) < n
  {
    if i + 1 == n {
      QuotientUnique(n, n, 1, 0);
    } else {
      QuotientUnique(i + 1, n, 0, i + 1);
    }
  }
}

module BridgeModel {
  import opened DataPoints
  import opened RoundRobin

  datatype Sent = Sent(sink: string, point: Point)

  datatype BridgeState = STOPPED | INITIALIZING | RUNNING | PAUSED | ERROR | SHUTDOWN

  datatype Outcome = Success | InvalidState | AlreadyExists | NotFound

  datatype Stats = Stats(received: nat, forwarded: nat, dropped: nat, errors: nat)

  /** One send of a point to each sink, in order. */
  function ToEach(sinks: seq<string>, p: Point): (s: seq<Sent>)
    ensures |s| == |sinks| && forall i | 0 <= i < |sinks| :: s[i] == Sent(sinks[i], p)
  {
    if sinks == [] then [] else ToEach(sinks[..|sinks| - 1], p) + [Sent(sinks[|sinks| - 1], p)]
  }

  function Failures(sinks: seq<string>, accepts: string -> bool): nat {
    if sinks == [] then 0
    else Failures(sinks[..|sinks| - 1], accepts) + if accepts(sinks[|sinks| - 1]) then 0 else 1
  }

  /** after is before with one occurrence of id taken out. */
  ghost predicate IsWithout(after: seq<string>, before: seq<string>, id: string) {
    exists k :: 0 <= k < |before| && before[k] == id && after == before[..k] + before[k + 1..]
  }

  lemma OneMoreSink(sinks: seq<string>, i: nat, p: Point, accepts: string -> bool)
    requires i < |sinks|
    ensures ToEach(sinks[..i + 1], p) == ToEach(sinks[..i], p) + [Sent(sinks[i], p)]
    ensures Failures(sinks[..i + 1], accepts) == Failures(sinks[..i], accepts) + if accepts(sinks[i]) then 0 else 1
  {
    assert sinks[..i + 1][..i] == sinks[..i];
  }

  lemma NoSinks(p: Point, accepts: string -> bool)
    ensures ToEach([], p) == [] && Failures([], accepts) == 0
  {
  }

  class Bridge {
    var state: BridgeState
    var paused: bool
    var roundRobin: bool
    var sources: seq<string>
    var sinks: seq<string>
    var current: nat
    var stats: Stats

    /** All sends, in order. */
    ghost var sends: seq<Sent>
    /** Points that were sent in round-robin mode to a sink that refused them. */
    ghost var refused: nat
    /** The round-robin turns since the sinks last changed, and the index they began at. */
    ghost var turns: seq<nat>
    ghost var first: nat

    /** Every point received is forwarded, dropped, or refused by the sink whose turn it
        was; the index names a sink if there is one; and the turns are a rotation. */
    ghost predicate Valid()
      reads this
    {
      && stats.received == stats.forwarded + stats.dropped + refused
      && refused <= stats.errors
      && (forall i, j | 0 <= i < j < |sinks| :: sinks[i] != sinks[j])
      && (state == PAUSED ==> paused) && (state == RUNNING ==> !paused)
      && Fair(sinks, turns, first, current)
    }

    constructor ()
      ensures Valid() && state == STOPPED && sinks == [] && stats == Stats(0, 0, 0, 0) && sends == [] && refused == 0
    {
      state, paused, roundRobin := STOPPED, false, true;
      sources, sinks, current, stats := [], [], 0, Stats(0, 0, 0, 0);
      sends, refused, turns, first := [], 0, [], 0;
    }

    method Initialize(inTurn: bool) returns (outcome: Outcome)
      requires Valid()
      modifies this`state, this`roundRobin
      ensures Valid() && state == old(state)
      ensures outcome == if state == STOPPED then Success else InvalidState
      ensures roundRobin == if outcome == Success then inTurn else old(roundRobin)
    {
      if state != STOPPED {
        return InvalidState;
      }
      state := INITIALIZING;
      roundRobin := inTurn;
      state := STOPPED;
      return Success;
    }

    method StartEach(components: seq<string>, starts: string -> bool)
      modifies this`stats
      ensures stats == old(stats).(errors := old(stats).errors + Failures(components, starts))
    {
      for i := 0 to |components|
        invariant stats == old(stats).(errors := old(stats).errors + Failures(components[..i], starts))
      {
        assert components[..i + 1][..i] == components[..i];
        if !starts(components[i]) {
          stats := stats.(errors := stats.errors + 1);
        }
      }
      assert components[..|components|] == components;
    }

    /** start: components that fail to start are counted as errors, no more. */
    method Start(starts: string -> bool) returns (outcome: Outcome)
      requires Valid()
      modifies this`state, this`paused, this`stats
      ensures Valid()
      ensures outcome == if old(state) in {RUNNING, STOPPED, PAUSED} then Success else InvalidState
      ensures state == if outcome == Success then RUNNING else old(state)
      ensures var started := outcome == Success && old(state) != RUNNING;
        && paused == (old(paused) && !started)
        && stats == old(stats).(errors :=
             old(stats).errors + if started then Failures(sources, starts) + Failures(sinks, starts) else 0)
    {
      if state == RUNNING {
        return Success;
      }
      if state != STOPPED && state != PAUSED {
        return InvalidState;
      }
      hide Fair, Failures;
      StartEach(sources, starts);
      StartEach(sinks, starts);
      paused := false;
      state := RUNNING;
      return Success;
    }

    /** stop: a pause outlives it. */
    method Stop()
      requires Valid()
      modifies this`state
      ensures Valid() && state == if old(state) == SHUTDOWN then SHUTDOWN else STOPPED
    {
      if state == STOPPED || state == SHUTDOWN {
        return;
      }
      state := SHUTDOWN;
      state := STOPPED;
    }

    method Pause()
      requires Valid()
      modifies this`state, this`paused
      ensures Valid()
      ensures if old(state) == RUNNING then state == PAUSED && paused else state == old(state) && paused == old(paused)
    {
      if state == RUNNING {
        paused := true;
        state := PAUSED;
      }
    }

    method Resume()
      requires Valid()
      modifies this`state, this`paused
      ensures Valid()
      ensures if old(state) == PAUSED then state == RUNNING && !paused else state == old(state) && paused == old(paused)
    {
      if state == PAUSED {
        paused := false;
        state := RUNNING;
      }
    }

    /** tick with the watchdog built in. */
    method Tick(timedOut: bool)
      requires Valid()
      modifies this`state, this`stats
      ensures Valid()
      ensures var expires := old(state) in {RUNNING, PAUSED} && timedOut;
        && state == (if expires then ERROR else old(state))
        && stats == old(stats).(errors := old(stats).errors + if expires then 1 else 0)
    {
      if state != RUNNING && state != PAUSED {
        return;
      }
      if timedOut {
        stats := stats.(errors := stats.errors + 1);
        state := ERROR;
      }
    }

    method AddSink(id: string) returns (outcome: Outcome)
      requires Valid()
      modifies this`sinks, this`turns, this`first
      ensures Valid()
      ensures outcome == if id in old(sinks) then AlreadyExists else Success
      ensures sinks == if outcome == Success then old(sinks) + [id] else old(sinks)
    {
      for i := 0 to |sinks|
        invariant id !in sinks[..i] && sinks == old(sinks) && turns == old(turns) && first == old(first)
      {
        if sinks[i] == id {
          return AlreadyExists;
        }
      }
      sinks := sinks + [id];
      turns, first := [], current;
      return Success;
    }

    /** remove_sink: an index left beyond the end goes back to the first sink. */
    method RemoveSink(id: string) returns (outcome: Outcome)
      requires Valid()
      modifies this`sinks, this`current, this`turns, this`first
      ensures Valid()
      ensures outcome == if id in old(sinks) then Success else NotFound
      ensures outcome == NotFound ==> sinks == old(sinks) && current == old(current)
      ensures outcome == Success ==> IsWithout(sinks, old(sinks), id)
      ensures outcome == Success ==> current == if old(current) < |sinks| then old(current) else 0
    {
      var k := 0;
      while k < |sinks| && sinks[k] != id
        invariant 0 <= k <= |sinks| && id !in sinks[..k]
      {
        k := k + 1;
      }
      if k == |sinks| {
        return NotFound;
      }
      sinks := sinks[..k] + sinks[k + 1..];
      if current >= |sinks| {
        current := 0;
      }
      turns, first := [], current;
      return Success;
    }

    /** data_received, and forward_data unless paused. accepts says which sinks take the
        point. */
    method DataReceived(p: Point, accepts: string -> bool)
      requires Valid()
      modifies this`stats, this`current, this`sends, this`refused, this`turns
      ensures Valid()
      ensures stats.received == old(stats).received + 1
      ensures paused || sinks == [] ==>
        && sends == old(sends) && current == old(current) && refused == old(refused)
        && stats == old(stats).(received := stats.received, dropped := old(stats).dropped + 1)
      ensures !paused && sinks != [] && roundRobin ==>
        && old(current) < |sinks| && current == Succ(old(current), |sinks|)
        && turns == old(turns) + [old(current)]
        && sends == old(sends) + [Sent(sinks[old(current)], p)]
        && var taken := accepts(sinks[old(current)]);
           && refused == old(refused) + (if taken then 0 else 1)
           && stats == old(stats).(received := stats.received,
                                   forwarded := old(stats).forwarded + (if taken then 1 else 0),
                                   errors := old(stats).errors + (if taken then 0 else 1))
      ensures !paused && sinks != [] && !roundRobin ==>
        && sends == old(sends) + ToEach(sinks, p) && current == old(current) && refused == old(refused)
        && var taken := exists s :: s in sinks && accepts(s);
           stats == old(stats).(received := stats.received,
                                forwarded := old(stats).forwarded + (if taken then 1 else 0),
                                dropped := old(stats).dropped + (if taken then 0 else 1),
                                errors := old(stats).errors + Failures(sinks, accepts))
    {
      stats := stats.(received := stats.received + 1);
      if paused {
        stats := stats.(dropped := stats.dropped + 1);
        return;
      }
      ForwardData(p, accepts);
    }

    /** The broadcasting loop of forward_data. */
    method SendToAll(p: Point, accepts: string -> bool) returns (forwarded: bool)
      modifies this`stats, this`sends
      ensures sends == old(sends) + ToEach(sinks, p)
      ensures forwarded == exists s :: s in sinks && accepts(s)
      ensures stats == old(stats).(errors := old(stats).errors + Failures(sinks, accepts))
    {
      NoSinks(p, accepts);
      hide *;
      forwarded := false;
      for i := 0 to |sinks|
        invariant sends == old(sends) + ToEach(sinks[..i], p)
        invariant forwarded == exists s :: s in sinks[..i] && accepts(s)
        invariant stats == old(stats).(errors := old(stats).errors + Failures(sinks[..i], accepts))
      {
        OneMoreSink(sinks, i, p, accepts);
        assert sinks[..i + 1] == sinks[..i] + [sinks[i]];
        sends := sends + [Sent(sinks[i], p)];
        if accepts(sinks[i]) {
          forwarded := true;
        } else {
          stats := stats.(errors := stats.errors + 1);
        }
      }
      assert sinks[..|sinks|] == sinks;
    }

    method ForwardData(p: Point, accepts: string -> bool)
      requires Fair(sinks, turns, first, current)
      modifies this`stats, this`current, this`sends, this`refused, this`turns
      ensures Fair(sinks, turns, first, current)
      ensures sinks == [] ==>
        && sends == old(sends) && current == old(current) && refused == old(refused)
        && stats == old(stats).(dropped := old(stats).dropped + 1)
      ensures sinks != [] && roundRobin ==>
        && old(current) < |sinks| && current == Succ(old(current), |sinks|)
        && turns == old(turns) + [old(current)]
        && sends == old(sends) + [Sent(sinks[old(current)], p)]
        && var taken := accepts(sinks[old(current)]);
           && refused == old(refused) + (if taken then 0 else 1)
           && stats == old(stats).(forwarded := old(stats).forwarded + (if taken then 1 else 0),
                                   errors := old(stats).errors + (if taken then 0 else 1))
      ensures sinks != [] && !roundRobin ==>
        && sends == old(sends) + ToEach(sinks, p) && current == old(current) && refused == old(refused)
        && var taken := exists s :: s in sinks && accepts(s);
           stats == old(stats).(forwarded := old(stats).forwarded + (if taken then 1 else 0),
                                dropped := old(stats).dropped + (if taken then 0 else 1),
                                errors := old(stats).errors + Failures(sinks, accepts))
    {
      hide Fair, Failures, ToEach, Succ;
      if sinks == [] {
        stats := stats.(dropped := stats.dropped + 1);
        return;
      }
      if roundRobin {
        FairStep(sinks, turns, first, current);
        sends := sends + [Sent(sinks[current], p)];
        if accepts(sinks[current]) {
          stats := stats.(forwarded := stats.forwarded + 1);
        } else {
          refused := refused + 1;
          stats := stats.(errors := stats.errors + 1);
        }
        turns := turns + [current];
        current := (current + 1) % |sinks|;
      } else {
        var forwarded := SendToAll(p, accepts);
        if forwarded {
          stats := stats.(forwarded := stats.forwarded + 1);
        } else {
          stats := stats.(dropped := stats.dropped + 1);
        }
      }
    }
  }

  /** The index is in range, and is the one whose turn it is. */
  ghost predicate Fair(sinks: seq<string>, turns: seq<nat>, first: nat, current: nat) {
    if sinks == [] then current == 0
    else first < |sinks| && current < |sinks| && IsRotation(turns, first, |sinks|)
         && current == Upcoming(turns, first, |sinks|)
  }

  lemma FairStep(sinks: seq<string>, turns: seq<nat>, first: nat, current: nat)
    requires sinks != [] && Fair(sinks, turns, first, current)
    ensures current < |sinks| && (current + 1) % |sinks| == Succ(current, |sinks|)
    ensures Fair(sinks, turns + [current], first, (current + 1) % |sinks|)
  {
    SuccIsModular(current, |sinks|);
    RotationMore(turns, first, |sinks|);
  }
}
