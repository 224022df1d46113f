/** The fallback machine of the syslog sink. What sockets, files and the local syslog do is
    passed in. The history of connections, remote sends and recoveries is kept as ghost
    state, and the fallback flag is shown to be a function of it. */
module SyslogSinkModel {
  import opened DataPoints

  /** filter says which points are left out. maxFailures is a 32-bit number. */
  datatype Config = Config(
    remote: bool, async: bool, maxFailures: nat, fileFallback: bool, consoleFallback: bool,
    queueSize: nat, batchSize: nat, filter: Point -> bool)

  /** How the outside world answers one message. */
  datatype Answer = Answer(remoteSent: bool, fileOpen: bool, localLogged: bool)

  datatype Event =
    | Started
    | StartedUnconnected
    | RemoteSent
    | RemoteFailed
    | Recovered
    | RecoveryFailed

  datatype Outcome = Success | NotRunning | AlreadyRunning | QueueFull | Failed

  // ------------------------------------------------------------ what history says

  /** Remote failures in a row since the last remote success, recovery or start. */
  ghost function Streak(events: seq<Event>): nat {
    if events == [] then 0
    else
      var before := Streak(events[..|events| - 1]);
      match events[|events| - 1]
      case RemoteFailed => before + 1
      case RecoveryFailed => before
      case _ => 0
  }

  /** The number of failures in a row that leads to fallback: at least one is needed. */
  function Limit(c: Config): nat {
    if c.maxFailures == 0 then 1 else c.maxFailures
  }

  /** Fallback begins with a start that cannot connect, or with the failure that completes
      a streak of the limit. */
  ghost predicate Enters(c: Config, events: seq<Event>, i: nat)
    requires i < |events|
  {
    events[i] == StartedUnconnected || (events[i] == RemoteFailed && Streak(events[..i + 1]) == Limit(c))
  }

  /** It ends with a recovery or with the next start. */
  predicate Leaves(e: Event) {
    e == Recovered || e == Started
  }

  /** The history puts the sink in fallback: it entered and has not left since. */
  ghost predicate InFallback(c: Config, events: seq<Event>) {
    exists i :: 0 <= i < |events| && Enters(c, events, i) && forall j | i < j < |events| :: !Leaves(events[j])
  }

  /** The remote is used only outside fallback, and recovery is tried only in fallback. */
  ghost predicate Disciplined(c: Config, events: seq<Event>) {
    forall i | 0 <= i < |events| ::
      && (events[i] in {RemoteSent, RemoteFailed} ==> !InFallback(c, events[..i]))
      && (events[i] in {Recovered, RecoveryFailed} ==> InFallback(c, events[..i]))
  }

  lemma EntersEarlier(c: Config, events: seq<Event>, e: Event, i: nat)
    requires i < |events|
    ensures Enters(c, events + [e], i) <==> Enters(c, events, i)
  {
    assert (events + [e])[..i + 1] == events[..i + 1];
  }

  /** How one more event moves the fallback flag. */
  lemma InFallbackMore(c: Config, events: seq<Event>, e: Event)
    ensures InFallback(c, events + [e])
        <==> Enters(c, events + [e], |events|) || (InFallback(c, events) && !Leaves(e))
  {
    hide Enters, Leaves;
    var more := events + [e];
    if InFallback(c, events) && !Leaves(e) {
      var i :| 0 <= i < |events| && Enters(c, events, i) && forall j | i < j < |events| :: !Leaves(events[j]);
      EntersEarlier(c, events, e, i);
      assert forall j | i < j < |more| :: j < |events| ==> more[j] == events[j];
      assert InFallback(c, more);
    }
    if InFallback(c, more) && !Enters(c, more, |events|) {
      var i :| 0 <= i < |more| && Enters(c, more, i) && forall j | i < j < |more| :: !Leaves(more[j]);
      EntersEarlier(c, events, e, i);
      assert more[|events|] == e;
      assert forall j | i < j < |events| :: more[j] == events[j];
    }
  }

  lemma StreakMore(events: seq<Event>, e: Event)
    ensures Streak(events + [e])
         == match e case RemoteFailed => Streak(events) + 1 case RecoveryFailed => Streak(events) case _ => 0
  {
    assert (events + [e])[..|events|] == events;
  }

  /** Main result: outside fallback the streak is below the limit, and in fallback it is
      at most the limit, so the flag turns on exactly at the failure that completes it. */
  lemma {:induction false} StreakBelowLimit(c: Config, events: seq<Event>)
    requires Disciplined(c, events)
    ensures if InFallback(c, events) then Streak(events) <= Limit(c) else Streak(events) < Limit(c)
    decreases |events|
  {
    if events == [] {
    } else {
      var n := |events| - 1;
      var before, e := events[..n], events[n];
      assert events == before + [e];
      DisciplinedBefore(c, before, e);
      StreakBelowLimit(c, before);
      InFallbackMore(c, before, e);
      StreakMore(before, e);
      EntersLast(c, before, e);
      hide InFallback, Streak, Enters, Disciplined;
    }
  }

  lemma EntersLast(c: Config, events: seq<Event>, e: Event)
    ensures Enters(c, events + [e], |events|)
        <==> e == StartedUnconnected || (e == RemoteFailed && Streak(events + [e]) == Limit(c))
  {
    hide Streak;
    assert (events + [e])[..|events| + 1] == events + [e];
  }

  lemma DisciplinedBefore(c: Config, events: seq<Event>, e: Event)
    ensures Disciplined(c, events + [e])
        <==> Disciplined(c, events)
             && (e in {RemoteSent, RemoteFailed} ==> !InFallback(c, events))
             && (e in {Recovered, RecoveryFailed} ==> InFallback(c, events))
  {
    hide InFallback;
    var more := events + [e];
    assert forall i | 0 <= i <= |events| :: more[..i] == events[..i];
    assert events[..|events|] == events && more[|events|] == e;
    assert forall i | 0 <= i < |events| :: more[i] == events[i];
  }

  // ------------------------------------------------------------------- the sink

  /** The machine's two fields against its history. */
  ghost predicate Tracks(c: Config, events: seq<Event>, fallbackActive: bool, failures: nat) {
    && Disciplined(c, events)
    && fallbackActive == InFallback(c, events)
    && failures == Streak(events)
  }

  /** One event moves the machine as the code does, and keeps it in step with history. */
  lemma TracksMore(c: Config, events: seq<Event>, fallbackActive: bool, failures: nat, e: Event)
    requires Tracks(c, events, fallbackActive, failures)
    requires e in {RemoteSent, RemoteFailed} ==> !fallbackActive
    requires e in {Recovered, RecoveryFailed} ==> fallbackActive
    ensures match e
      case Started => Tracks(c, events + [e], false, 0)
      case StartedUnconnected => Tracks(c, events + [e], true, 0)
      case RemoteSent => Tracks(c, events + [e], false, 0)
      case RemoteFailed => Tracks(c, events + [e], failures + 1 >= c.maxFailures, failures + 1)
      case Recovered => Tracks(c, events + [e], false, 0)
      case RecoveryFailed => Tracks(c, events + [e], true, failures)
  {
    StreakBelowLimit(c, events);
    DisciplinedBefore(c, events, e);
    InFallbackMore(c, events, e);
    StreakMore(events, e);
    EntersLast(c, events, e);
    hide InFallback, Streak, Enters, Disciplined;
  }

  lemma TracksStart(c: Config, events: seq<Event>, fallbackActive: bool, failures: nat, connected: bool)
    requires Tracks(c, events, fallbackActive, failures)
    ensures Tracks(c, events + [if connected then Started else StartedUnconnected], !connected, 0)
  {
    hide Tracks;
    if connected {
      TracksMore(c, events, fallbackActive, failures, Started);
    } else {
      TracksMore(c, events, fallbackActive, failures, StartedUnconnected);
    }
  }

  lemma TracksSuccess(c: Config, events: seq<Event>, failures: nat)
    requires Tracks(c, events, false, failures)
    ensures Tracks(c, events + [RemoteSent], false, 0)
  {
    hide Tracks;
    TracksMore(c, events, false, failures, RemoteSent);
  }

  lemma TracksFailure(c: Config, events: seq<Event>, failures: nat)
    requires Tracks(c, events, false, failures)
    ensures Tracks(c, events + [RemoteFailed], failures + 1 >= c.maxFailures, failures + 1)
  {
    hide Tracks;
    TracksMore(c, events, false, failures, RemoteFailed);
  }

  lemma TracksNothing(c: Config)
    ensures Tracks(c, [], false, 0)
  {
  }

  /** What a message comes to, by the way it is sent. */
  predicate Delivered(c: Config, fallbackActive: bool, a: Answer) {
    if c.remote && !fallbackActive then a.remoteSent || (c.fileFallback && a.fileOpen) || c.consoleFallback
    else a.localLogged
  }

  function EventsOf(c: Config, fallbackActive: bool, a: Answer): seq<Event> {
    if c.remote && !fallbackActive then [if a.remoteSent then RemoteSent else RemoteFailed] else []
  }

  datatype Statistics = Statistics(
    processed: nat, filtered: nat, dropped: nat, sent: nat, failed: nat,
    connectionFailures: nat, fallbackActivations: nat)
  {
    /** The points whose fate is settled. */
    function Settled(): nat { sent + failed + filtered + dropped }
  }

  function NoStatistics(): Statistics {
    Statistics(0, 0, 0, 0, 0, 0, 0)
  }

  // ------------------------------------------------------ what messages come to

  /** The history and what was counted. */
  datatype Ledger = Ledger(events: seq<Event>, statistics: Statistics)

  /** What sending one message adds to the statistics, with the fallback flag at fallback
      before and at fallback' afterwards. */
  function Counted(c: Config, s: Statistics, fallback: bool, fallback': bool, a: Answer): Statistics {
    var success := Delivered(c, fallback, a);
    var refused := c.remote && !fallback && !a.remoteSent;
    s.(sent := s.sent + (if success then 1 else 0),
       failed := s.failed + (if success then 0 else 1),
       connectionFailures := s.connectionFailures + (if refused then 1 else 0),
       fallbackActivations := s.fallbackActivations + (if fallback' && !fallback then 1 else 0))
  }

  /** The ledger after one message has been sent, wherever history says it goes. */
  ghost function AfterSending(c: Config, l: Ledger, a: Answer): Ledger {
    var fallback := InFallback(c, l.events);
    var events := l.events + EventsOf(c, fallback, a);
    Ledger(events, Counted(c, l.statistics, fallback, InFallback(c, events), a))
  }

  /** A message is counted as sent if the remote takes it, or refuses it and the fallback file
      is open or there is a console; in fallback, and without a remote, if the local syslog
      takes it. Otherwise it is counted as failed, and a refusal is counted as well. */
  lemma SentExactly(c: Config, l: Ledger, a: Answer)
    ensures var s, s' := l.statistics, AfterSending(c, l, a).statistics;
      && s'.sent + s'.failed == s.sent + s.failed + 1
      && (s'.sent == s.sent + 1 || s'.sent == s.sent)
      && (c.remote && !InFallback(c, l.events) ==>
            && (a.remoteSent || (c.fileFallback && a.fileOpen) || c.consoleFallback <==> s'.sent == s.sent + 1)
            && s'.connectionFailures == s.connectionFailures + if a.remoteSent then 0 else 1)
      && (!c.remote || InFallback(c, l.events) ==>
            (a.localLogged <==> s'.sent == s.sent + 1) && s'.connectionFailures == s.connectionFailures)
  {
    hide InFallback;
  }

  ghost function AfterOne(c: Config, l: Ledger, p: Point, a: Answer): Ledger {
    if c.filter(p) then l.(statistics := l.statistics.(filtered := l.statistics.filtered + 1))
    else AfterSending(c, l, a)
  }

  /** The ledger after the messages, the i-th one answered by answers(i). */
  ghost function AfterAll(c: Config, l: Ledger, messages: seq<Point>, answers: nat -> Answer): Ledger {
    if messages == [] then l
    else
      var n := |messages| - 1;
      AfterOne(c, AfterAll(c, l, messages[..n], answers), messages[n], answers(n))
  }

  lemma OneMoreProcessed(c: Config, l: Ledger, messages: seq<Point>, answers: nat -> Answer, i: nat)
    requires i < |messages|
    ensures AfterAll(c, l, messages[..i + 1], answers)
         == AfterOne(c, AfterAll(c, l, messages[..i], answers), messages[i], answers(i))
  {
    hide AfterOne;
    assert messages[..i + 1][..i] == messages[..i];
  }

  lemma NothingProcessed(c: Config, l: Ledger, answers: nat -> Answer)
    ensures AfterAll(c, l, [], answers) == l
  {
  }

  /** Main result on counting: every message raises exactly one of sent, failed and
      filtered, and a message that is not filtered is sent or failed. */
  lemma {:induction false} EachIsSettledOnce(c: Config, l: Ledger, messages: seq<Point>, answers: nat -> Answer)
    ensures var s, s' := l.statistics, AfterAll(c, l, messages, answers).statistics;
      && s'.sent + s'.failed + s'.filtered == s.sent + s.failed + s.filtered + |messages|
      && s.sent <= s'.sent && s.failed <= s'.failed && s.filtered <= s'.filtered
      && s'.dropped == s.dropped && s'.processed == s.processed
      && ((forall p | p in messages :: !c.filter(p)) ==> s'.filtered == s.filtered)
    decreases |messages|
  {
    if messages != [] {
      var n := |messages| - 1;
      var before := AfterAll(c, l, messages[..n], answers);
      EachIsSettledOnce(c, l, messages[..n], answers);
      OneSettled(c, before, messages[n], answers(n));
      hide AfterOne;
      assert messages[n] in messages;
    }
  }

  lemma OneSettled(c: Config, l: Ledger, p: Point, a: Answer)
    ensures var s, s' := l.statistics, AfterOne(c, l, p, a).statistics;
      if c.filter(p) then s' == s.(filtered := s.filtered + 1)
      else
        && s'.filtered == s.filtered && s'.dropped == s.dropped && s'.processed == s.processed
        && ((s'.sent == s.sent + 1 && s'.failed == s.failed) || (s'.sent == s.sent && s'.failed == s.failed + 1))
  {
    hide InFallback, EventsOf, Delivered;
  }

  /** The answers from the k-th on. */
  function Later(answers: nat -> Answer, k: nat): nat -> Answer {
    (i: nat) => answers(k + i)
  }

  lemma LaterAt(answers: nat -> Answer, k: nat, i: nat)
    ensures Later(answers, k)(i) == answers(k + i)
  {
  }

  /** Messages processed in two batches are processed as in one. */
  lemma {:induction false} ProcessedInTurn(c: Config, l: Ledger, a: seq<Point>, b: seq<Point>, answers: nat -> Answer)
    ensures AfterAll(c, l, a + b, answers) == AfterAll(c, AfterAll(c, l, a, answers), b, Later(answers, |a|))
    decreases |b|
  {
    hide *;
    var before := AfterAll(c, l, a, answers);
    if b == [] {
      NothingProcessed(c, before, Later(answers, |a|));
      assert a + b == a;
    } else {
      var n := |b| - 1;
      ProcessedInTurn(c, l, a, b[..n], answers);
      OneMoreProcessed(c, l, a + b, answers, |a| + n);
      OneMoreProcessed(c, before, b, Later(answers, |a|), n);
      LaterAt(answers, |a|, n);
      LastOfBoth(a, b);
    }
  }

  lemma LastOfBoth(a: seq<Point>, b: seq<Point>)
    requires b != []
    ensures var n := |b| - 1;
      && (a + b)[..|a| + n] == a + b[..n] && (a + b)[..|a| + n + 1] == a + b
      && b[..n + 1] == b && (a + b)[|a| + n] == b[n]
  {
  }

  // ---------------------------------------------------------------- accounting

  /** Every point offered since the statistics began is settled or queued. */
  ghost predicate Accounted(c: Config, running: bool, queue: seq<Point>, offered: nat, statistics: Statistics) {
    && offered == statistics.Settled() + |queue|
    && |queue| <= c.queueSize
    && (forall p | p in queue :: !c.filter(p))
    && (!running || !c.async ==> queue == [])
  }

  lemma AccountedNothing(c: Config, running: bool)
    ensures Accounted(c, running, [], 0, NoStatistics())
  {
  }

  lemma AccountedIdle(c: Config, queue: seq<Point>, offered: nat, statistics: Statistics)
    requires Accounted(c, false, queue, offered, statistics)
    ensures queue == []
  {
  }

  lemma OneMoreSettled(c: Config, queue: seq<Point>, offered: nat, s: Statistics, s': Statistics)
    requires Accounted(c, true, queue, offered, s) && s'.Settled() == s.Settled() + 1
    ensures Accounted(c, true, queue, offered + 1, s')
  {
  }

  lemma OneMoreQueued(c: Config, queue: seq<Point>, offered: nat, s: Statistics, s': Statistics, p: Point)
    requires Accounted(c, true, queue, offered, s) && s'.Settled() == s.Settled()
    requires c.async && !c.filter(p) && |queue| < c.queueSize
    ensures Accounted(c, true, queue + [p], offered + 1, s')
  {
  }

  lemma QueueIsUnfiltered(c: Config, running: bool, queue: seq<Point>, offered: nat, s: Statistics, n: nat)
    requires Accounted(c, running, queue, offered, s) && n <= |queue|
    ensures forall p | p in queue[..n] :: !c.filter(p)
  {
  }

  lemma FrontSettled(c: Config, running: bool, queue: seq<Point>, offered: nat, s: Statistics, n: nat, s': Statistics)
    requires Accounted(c, running, queue, offered, s) && n <= |queue| && s'.Settled() == s.Settled() + n
    ensures Accounted(c, running, queue[n..], offered, s')
  {
  }

  /** Processing the front of the queue keeps the account. */
  lemma FrontAccounted(c: Config, running: bool, queue: seq<Point>, offered: nat, l: Ledger, n: nat,
                       answers: nat -> Answer)
    requires Accounted(c, running, queue, offered, l.statistics) && n <= |queue|
    ensures Accounted(c, running, queue[n..], offered, AfterAll(c, l, queue[..n], answers).statistics)
  {
    hide Accounted, AfterAll;
    QueueIsUnfiltered(c, running, queue, offered, l.statistics, n);
    EachIsSettledOnce(c, l, queue[..n], answers);
    FrontSettled(c, running, queue, offered, l.statistics, n, AfterAll(c, l, queue[..n], answers).statistics);
  }

  lemma QueueWhileRunning(c: Config, running: bool, queue: seq<Point>, offered: nat, s: Statistics)
    requires Accounted(c, running, queue, offered, s)
    ensures queue != [] ==> running && c.async
  {
  }

  lemma StoppedAccounted(c: Config, queue: seq<Point>, offered: nat, s: Statistics)
    requires Accounted(c, true, queue, offered, s) && queue == []
    ensures Accounted(c, false, queue, offered, s)
  {
  }

  lemma LimitPositive(c: Config)
    ensures 0 < Limit(c)
  {
  }

  lemma KeepsBelow(c: Config, events: seq<Event>, fallbackActive: bool, failures: nat)
    requires Tracks(c, events, fallbackActive, failures)
    ensures !fallbackActive ==> failures < Limit(c)
  {
    hide InFallback, Streak, Disciplined;
    StreakBelowLimit(c, events);
  }

  lemma TracksFlag(c: Config, events: seq<Event>, fallbackActive: bool, failures: nat)
    requires Tracks(c, events, fallbackActive, failures)
    ensures fallbackActive == InFallback(c, events)
  {
    hide InFallback;
  }

  // -------------------------------------------------------------------- the sink

  class SyslogSink {
    const config: Config
    var running: bool
    var fallbackActive: bool
    var consecutiveFailures: nat
    var queue: seq<Point>
    var statistics: Statistics

    ghost var events: seq<Event>
    /** The points offered to send_data_point since the statistics began. */
    ghost var offered: nat

    ghost predicate InStep()
      reads this`events, this`fallbackActive, this`consecutiveFailures
    {
      Tracks(config, events, fallbackActive, consecutiveFailures)
    }

    ghost function Book(): Ledger
      reads this`events, this`statistics
    {
      Ledger(events, statistics)
    }

    /** The machine is in step with its history; outside fallback the failures are below
        the limit; and every point offered is sent, failed, filtered, dropped or queued. */
    ghost predicate Valid()
      reads this
    {
      && InStep()
      && (!fallbackActive ==> consecutiveFailures < Limit(config))
      && Accounted(config, running, queue, offered, statistics)
    }

    lemma ValidMeans()
      ensures Valid() <==>
        && InStep()
        && (!fallbackActive ==> consecutiveFailures < Limit(config))
        && Accounted(config, running, queue, offered, statistics)
    {
    }

    lemma StaysBelow()
      requires InStep()
      ensures !fallbackActive ==> consecutiveFailures < Limit(config)
    {
      KeepsBelow(config, events, fallbackActive, consecutiveFailures);
    }

    constructor (c: Config)
      ensures Valid() && config == c && !running && !fallbackActive && events == []
    {
      config := c;
      running, fallbackActive, consecutiveFailures, queue := false, false, 0, [];
      statistics, events, offered := Statistics(0, 0, 0, 0, 0, 0, 0), [], 0;
      new;
      hide Tracks, Accounted, Limit, NoStatistics;
      TracksNothing(c);
      AccountedNothing(c, false);
      LimitPositive(c);
    }

    method ActivateFallback()
      modifies this`fallbackActive, this`statistics
      ensures fallbackActive
      ensures statistics == if old(fallbackActive) then old(statistics)
                            else old(statistics).(fallbackActivations := old(statistics).fallbackActivations + 1)
    {
      if !fallbackActive {
        statistics := statistics.(fallbackActivations := statistics.fallbackActivations + 1);
      }
      fallbackActive := true;
    }

    /** start, with the outcome of connecting. The statistics begin anew. */
    method Start(connects: bool) returns (outcome: Outcome)
      requires Valid()
      modifies this
      ensures Valid() && running
      ensures outcome == if old(running) then AlreadyRunning else Success
      ensures old(running) ==> Book() == old(Book()) && queue == old(queue)
      ensures !old(running) ==>
        && events == old(events) + [if config.remote && !connects then StartedUnconnected else Started]
        && statistics == NoStatistics()
        && fallbackActive == (config.remote && !connects) && offered == 0 && queue == []
    {
      if running {
        return AlreadyRunning;
      }
      ValidMeans();
      AccountedIdle(config, queue, offered, statistics);
      BeginAnew(connects);
      AccountedNothing(config, true);
      StaysBelow();
      hide *;
      ValidMeans();
      outcome := Success;
    }

    /** The part of start that follows the check: fallback if the remote is wanted and
        cannot be reached. */
    method BeginAnew(connects: bool)
      requires InStep()
      modifies this`running, this`fallbackActive, this`consecutiveFailures, this`statistics, this`events, this`offered
      ensures InStep() && running && offered == 0 && statistics == NoStatistics()
      ensures events == old(events) + [if config.remote && !connects then StartedUnconnected else Started]
      ensures fallbackActive == (config.remote && !connects)
    {
      InStepMeans();
      TracksStart(config, events, fallbackActive, consecutiveFailures, !config.remote || connects);
      running, fallbackActive, consecutiveFailures := true, false, 0;
      if config.remote {
        if !connects {
          ActivateFallback();
        }
      }
      statistics := Statistics(0, 0, 0, 0, 0, 0, 0);
      ghost var e := if config.remote && !connects then StartedUnconnected else Started;
      events, offered := events + [e], 0;
      InStepMeans();
    }

    lemma InStepMeans()
      ensures InStep() <==> Tracks(config, events, fallbackActive, consecutiveFailures)
    {
      hide Tracks;
    }

    /** handle_send_failure: one more failure in the history, and fallback when the history
        says so. */
    method HandleSendFailure()
      requires InStep() && !fallbackActive
      modifies this`consecutiveFailures, this`fallbackActive, this`statistics, this`events
      ensures InStep() && events == old(events) + [RemoteFailed]
      ensures statistics == old(statistics).(
        connectionFailures := old(statistics).connectionFailures + 1,
        fallbackActivations := old(statistics).fallbackActivations + if fallbackActive then 1 else 0)
    {
      TracksFailure(config, events, consecutiveFailures);
      hide Tracks;
      consecutiveFailures := consecutiveFailures + 1;
      if consecutiveFailures >= config.maxFailures {
        ActivateFallback();
      }
      statistics := statistics.(connectionFailures := statistics.connectionFailures + 1);
      events := events + [RemoteFailed];
    }

    /** send_to_remote_syslog: a success enters the history and ends the streak. */
    method SendToRemote(a: Answer) returns (success: bool)
      requires InStep() && !fallbackActive
      modifies this`statistics, this`consecutiveFailures, this`events
      ensures InStep() && success == a.remoteSent
      ensures Book() == if success then Ledger(old(events) + [RemoteSent],
                                               old(statistics).(sent := old(statistics).sent + 1)) else old(Book())
    {
      if !a.remoteSent {
        return false;
      }
      TracksSuccess(config, events, consecutiveFailures);
      hide Tracks;
      statistics := statistics.(sent := statistics.sent + 1);
      consecutiveFailures := 0;
      events := events + [RemoteSent];
      return true;
    }

    method SendToFallback(a: Answer) returns (success: bool)
      modifies this`statistics
      ensures success == ((config.fileFallback && a.fileOpen) || config.consoleFallback)
      ensures statistics == if success then old(statistics).(sent := old(statistics).sent + 1) else old(statistics)
    {
      if config.fileFallback && a.fileOpen {
        statistics := statistics.(sent := statistics.sent + 1);
        return true;
      }
      if config.consoleFallback {
        statistics := statistics.(sent := statistics.sent + 1);
        return true;
      }
      return false;
    }

    /** The remote first, and the fallback if it fails. */
    method SendRemotely(a: Answer) returns (success: bool)
      requires InStep() && config.remote && !fallbackActive
      modifies this`consecutiveFailures, this`fallbackActive, this`statistics, this`events
      ensures InStep() && success == Delivered(config, false, a)
      ensures events == old(events) + EventsOf(config, false, a)
      ensures statistics
           == Counted(config, old(statistics), false, fallbackActive, a).(failed := old(statistics).failed)
    {
      hide InStep;
      success := SendToRemote(a);
      if !success {
        HandleSendFailure();
        success := SendToFallback(a);
      }
    }

    /** The sending part that send_data_point and process_message_batch have in common. */
    method Transmit(a: Answer) returns (success: bool)
      requires InStep()
      modifies this`consecutiveFailures, this`fallbackActive, this`statistics, this`events
      ensures InStep()
      ensures success == Delivered(config, old(fallbackActive), a)
      ensures Book() == AfterSending(config, old(Book()), a)
    {
      FlagFollows();
      hide InStep, InFallback, AfterSending;
      ghost var l := Book();
      if config.remote && !fallbackActive {
        success := SendRemotely(a);
      } else {
        success := a.localLogged;
        if success {
          statistics := statistics.(sent := statistics.sent + 1);
        }
      }
      if !success {
        statistics := statistics.(failed := statistics.failed + 1);
      }
      FlagFollows();
      SendingMeans(config, l, events, a);
    }

    lemma FlagFollows()
      requires InStep()
      ensures fallbackActive == InFallback(config, events)
    {
      TracksFlag(config, events, fallbackActive, consecutiveFailures);
    }

    /** send_data_point. throws says that queueing, prioritising or formatting the point
        raises an exception. A point offered to a running sink is filtered, queued,
        dropped, sent or failed, and only one of them. */
    method SendDataPoint(p: Point, a: Answer, throws: bool) returns (outcome: Outcome)
      requires Valid()
      modifies this
      ensures Valid() && running == old(running)
      ensures offered == old(offered) + if running then 1 else 0
      ensures !running ==> outcome == NotRunning && Book() == old(Book()) && queue == old(queue)
      ensures running && config.filter(p) ==>
        outcome == Success && Book() == AfterOne(config, old(Book()), p, a) && queue == old(queue)
      ensures running && !config.filter(p) && config.async ==>
        && outcome == (if |old(queue)| >= config.queueSize then QueueFull else if throws then Failed else Success)
        && queue == (if outcome == Success then old(queue) + [p] else old(queue))
        && Book() == old(Book()).(statistics := Noted(old(statistics), outcome))
      ensures running && !config.filter(p) && !config.async ==>
        && outcome == (if !throws && Delivered(config, old(fallbackActive), a) then Success else Failed)
        && queue == old(queue)
        && (throws ==> Book() == old(Book()).(statistics := Noted(old(statistics), Failed)))
        && (!throws ==> Book() == Finished(AfterSending(config, old(Book()), a), outcome == Success))
    {
      if !running {
        return NotRunning;
      }
      if config.filter(p) {
        LeaveOut(p, a);
        return Success;
      }
      hide *;
      if config.async {
        outcome := Enqueue(p, throws);
      } else {
        outcome := SendNow(p, a, throws);
      }
    }

    /** The filtering branch of send_data_point. */
    method LeaveOut(p: Point, a: Answer)
      requires Valid() && running && config.filter(p)
      modifies this`statistics, this`offered
      ensures Valid() && offered == old(offered) + 1 && Book() == AfterOne(config, old(Book()), p, a)
    {
      ValidMeans();
      ghost var before := statistics;
      statistics := statistics.(filtered := statistics.filtered + 1);
      OneMoreSettled(config, queue, offered, before, statistics);
      offered := offered + 1;
      hide InStep, Accounted, Limit;
      ValidMeans();
    }

    /** The queueing branch of send_data_point. */
    method Enqueue(p: Point, throws: bool) returns (outcome: Outcome)
      requires Valid() && running && config.async && !config.filter(p)
      modifies this`statistics, this`offered, this`queue
      ensures Valid() && offered == old(offered) + 1
      ensures outcome == if |old(queue)| >= config.queueSize then QueueFull else if throws then Failed else Success
      ensures queue == if outcome == Success then old(queue) + [p] else old(queue)
      ensures Book() == old(Book()).(statistics := Noted(old(statistics), outcome))
    {
      ValidMeans();
      hide InStep, Accounted, Limit;
      ghost var before := statistics;
      if |queue| >= config.queueSize {
        outcome, statistics := QueueFull, statistics.(dropped := statistics.dropped + 1);
        OneMoreSettled(config, queue, offered, before, statistics);
      } else if throws {
        outcome, statistics := Failed, statistics.(failed := statistics.failed + 1);
        OneMoreSettled(config, queue, offered, before, statistics);
      } else {
        outcome, statistics := Success, statistics.(processed := statistics.processed + 1);
        OneMoreQueued(config, queue, offered, before, statistics, p);
        queue := queue + [p];
      }
      offered := offered + 1;
      ValidMeans();
    }

    /** The sending branch of send_data_point. */
    method SendNow(p: Point, a: Answer, throws: bool) returns (outcome: Outcome)
      requires Valid() && running && !config.filter(p)
      modifies this`statistics, this`offered, this`events, this`fallbackActive, this`consecutiveFailures
      ensures Valid() && offered == old(offered) + 1
      ensures outcome == if !throws && Delivered(config, old(fallbackActive), a) then Success else Failed
      ensures throws ==> Book() == old(Book()).(statistics := Noted(old(statistics), Failed))
      ensures !throws ==> Book() == Finished(AfterSending(config, old(Book()), a), outcome == Success)
    {
      ValidMeans();
      hide InStep, Accounted, Limit, AfterSending, Delivered;
      ghost var before := statistics;
      if throws {
        outcome, statistics := Failed, statistics.(failed := statistics.failed + 1);
      } else {
        SendingSettles(config, Book(), p, a);
        var success := Transmit(a);
        outcome := if success then Success else Failed;
        if success {
          statistics := statistics.(processed := statistics.processed + 1);
        }
      }
      OneMoreSettled(config, queue, offered, before, statistics);
      offered := offered + 1;
      StaysBelow();
      ValidMeans();
    }

    /** process_message_batch: the messages one after the other. */
    method ProcessMessageBatch(messages: seq<Point>, answers: nat -> Answer)
      requires InStep()
      modifies this`consecutiveFailures, this`fallbackActive, this`statistics, this`events
      ensures InStep() && Book() == AfterAll(config, old(Book()), messages, answers)
    {
      NothingProcessed(config, Book(), answers);
      hide InStep, AfterAll, AfterSending;
      for i := 0 to |messages|
        invariant InStep() && Book() == AfterAll(config, old(Book()), messages[..i], answers)
      {
        OneMoreProcessed(config, old(Book()), messages, answers, i);
        if !config.filter(messages[i]) {
          var _ := Transmit(answers(i));
        } else {
          statistics := statistics.(filtered := statistics.filtered + 1);
        }
      }
      assert messages[..|messages|] == messages;
    }

    /** The collecting part of worker_loop. */
    method TakeBatch() returns (batch: seq<Point>)
      modifies this`queue
      ensures batch == old(queue)[..Taken(|old(queue)|)] && queue == old(queue)[Taken(|old(queue)|)..]
    {
      batch := [];
      while queue != [] && |batch| < config.batchSize
        invariant batch + queue == old(queue) && |batch| <= config.batchSize
        decreases |queue|
      {
        batch := batch + [queue[0]];
        queue := queue[1..];
      }
    }

    /** One turn of worker_loop: the front of the queue is processed. */
    method WorkerTurn(answers: nat -> Answer)
      requires Valid()
      modifies this`queue, this`consecutiveFailures, this`fallbackActive, this`statistics, this`events
      ensures Valid() && queue == old(queue)[Taken(|old(queue)|)..]
      ensures Book() == AfterAll(config, old(Book()), old(queue)[..Taken(|old(queue)|)], answers)
    {
      ValidMeans();
      BookMeans();
      hide *;
      var batch := TakeBatch();
      NothingProcessed(config, Book(), answers);
      FrontAccounted(config, running, old(queue), offered, Book(), |batch|, answers);
      if batch != [] {
        ProcessMessageBatch(batch, answers);
      }
      BookMeans();
      StaysBelow();
      ValidMeans();
    }

    lemma BookMeans()
      ensures Book().statistics == statistics
    {
    }

    /** What the worker takes of a queue in one turn. */
    function Taken(queued: nat): (n: nat)
      ensures n <= queued
    {
      if queued < config.batchSize then queued else config.batchSize
    }

    lemma SomeTaken(queued: nat)
      requires queued > 0 && config.batchSize > 0
      ensures Taken(queued) > 0
    {
    }

    /** stop: the worker empties the queue before it ends, with the same effect whatever
        the batch size. Without a batch size it could only end on an empty queue. */
    method Stop(answers: nat -> Answer)
      requires Valid() && (config.batchSize > 0 || queue == [])
      modifies this`running, this`queue, this`consecutiveFailures, this`fallbackActive, this`statistics, this`events
      ensures Valid() && !running && queue == []
      ensures Book() == AfterAll(config, old(Book()), old(queue), answers)
    {
      ValidMeans();
      NothingProcessed(config, Book(), answers);
      QueueWhileRunning(config, running, queue, offered, statistics);
      hide *;
      if !running {
        return;
      }
      DrainQueue(answers);
      ValidMeans();
      StoppedAccounted(config, queue, offered, statistics);
      running := false;
      ValidMeans();
    }

    /** The worker's turns until the queue is empty. */
    method DrainQueue(answers: nat -> Answer)
      requires Valid() && (config.batchSize > 0 || queue == [])
      modifies this`queue, this`consecutiveFailures, this`fallbackActive, this`statistics, this`events
      ensures Valid() && queue == []
      ensures Book() == AfterAll(config, old(Book()), old(queue), answers)
    {
      hide *;
      ghost var before, waiting := Book(), queue;
      NoneDrained(config, before, waiting, answers);
      var done: nat := 0;
      while queue != []
        invariant Valid() && Drained(config, before, waiting, answers, done, queue, Book())
        decreases |queue|
      {
        var taken := Taken(|queue|);
        SomeTaken(|queue|);
        DrainedMore(config, before, waiting, answers, done, queue, Book(), taken);
        WorkerTurn(Later(answers, done));
        done := done + taken;
      }
      AllDrained(config, before, waiting, answers, done, queue, Book());
    }

    /** recover_from_fallback, with the outcome of connecting. */
    method RecoverFromFallback(connects: bool) returns (recovered: bool)
      requires Valid()
      modifies this`fallbackActive, this`consecutiveFailures, this`events
      ensures Valid()
      ensures recovered == !fallbackActive == (!old(fallbackActive) || connects)
      ensures events == if !old(fallbackActive) then old(events)
                        else old(events) + [if connects then Recovered else RecoveryFailed]
    {
      if !fallbackActive {
        return true;
      }
      ghost var e := if connects then Recovered else RecoveryFailed;
      TracksMore(config, events, fallbackActive, consecutiveFailures, e);
      LimitPositive(config);
      hide Tracks, Accounted, Limit;
      events := events + [e];
      if connects {
        fallbackActive := false;
        consecutiveFailures := 0;
        return true;
      }
      return false;
    }
  }

  /** What the queueing branch counts. */
  function Noted(s: Statistics, outcome: Outcome): Statistics {
    match outcome
    case QueueFull => s.(dropped := s.dropped + 1)
    case Failed => s.(failed := s.failed + 1)
    case Success => s.(processed := s.processed + 1)
    case _ => s
  }

  /** A send that succeeded counts as processed. */
  function Finished(l: Ledger, success: bool): Ledger {
    if success then l.(statistics := l.statistics.(processed := l.statistics.processed + 1)) else l
  }

  lemma SendingMeans(c: Config, l: Ledger, events: seq<Event>, a: Answer)
    requires events == l.events + EventsOf(c, InFallback(c, l.events), a)
    ensures AfterSending(c, l, a)
         == Ledger(events, Counted(c, l.statistics, InFallback(c, l.events), InFallback(c, events), a))
  {
    hide InFallback, EventsOf, Counted;
  }

  lemma SendingSettles(c: Config, l: Ledger, p: Point, a: Answer)
    requires !c.filter(p)
    ensures AfterSending(c, l, a).statistics.Settled() == l.statistics.Settled() + 1
  {
    hide InFallback, EventsOf, Delivered;
    OneSettled(c, l, p, a);
  }

  /** The first done of the waiting messages are processed, the rest is the queue. */
  ghost predicate Drained(c: Config, l: Ledger, waiting: seq<Point>, answers: nat -> Answer, done: nat,
                          queue: seq<Point>, book: Ledger) {
    done <= |waiting| && queue == waiting[done..] && book == AfterAll(c, l, waiting[..done], answers)
  }

  lemma DrainedMore(c: Config, l: Ledger, waiting: seq<Point>, answers: nat -> Answer, done: nat,
                    queue: seq<Point>, book: Ledger, n: nat)
    requires Drained(c, l, waiting, answers, done, queue, book) && n <= |queue|
    ensures Drained(c, l, waiting, answers, done + n, queue[n..], AfterAll(c, book, queue[..n], Later(answers, done)))
  {
    hide AfterAll, Later;
    ProcessedInTurn(c, l, waiting[..done], queue[..n], answers);
    assert waiting[..done + n] == waiting[..done] + waiting[done..][..n];
    assert waiting[done..][n..] == waiting[done + n..];
  }

  lemma AllDrained(c: Config, l: Ledger, waiting: seq<Point>, answers: nat -> Answer, done: nat,
                   queue: seq<Point>, book: Ledger)
    requires Drained(c, l, waiting, answers, done, queue, book) && queue == []
    ensures book == AfterAll(c, l, waiting, answers)
  {
    hide AfterAll;
    assert waiting[..done] == waiting;
  }

  lemma NoneDrained(c: Config, l: Ledger, waiting: seq<Point>, answers: nat -> Answer)
    ensures Drained(c, l, waiting, answers, 0, waiting, l)
  {
    NothingProcessed(c, l, answers);
    assert waiting[..0] == [] && waiting[0..] == waiting;
  }
}
