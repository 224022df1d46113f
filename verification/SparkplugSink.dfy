/** The publishing pipeline of the Sparkplug sink: a bounded queue, worker threads, a
    shared batch behind a lock, and a sequence counter advanced by two separate atomic
    operations. The pipeline is a state machine whose steps any threads interleave. */
module SparkplugSink {
  import opened DataPoints

  type Device = string

  // ------------------------------------------------- grouping a batch by device

  datatype Group = Group(device: Device, points: seq<Point>)

  /** The points of one device, in batch order. tags[i] is the device found for batch[i]. */
  ghost function Share(batch: seq<Point>, tags: seq<Device>, device: Device): seq<Point>
    requires |batch| == |tags|
  {
    if batch == [] then []
    else
      var n := |batch| - 1;
      Share(batch[..n], tags[..n], device) + (if tags[n] == device then [batch[n]] else [])
  }

  /** The map by_device lists its entries in an order of its own choosing. */
  ghost predicate Lists(groups: seq<Group>, byDevice: map<Device, seq<Point>>) {
    && (forall i, j | 0 <= i < j < |groups| :: groups[i].device != groups[j].device)
    && (forall i | 0 <= i < |groups| :: groups[i].device in byDevice && groups[i].points == byDevice[groups[i].device])
    && (forall d | d in byDevice :: exists i :: 0 <= i < |groups| && groups[i].device == d)
  }

  ghost predicate IsByDevice(byDevice: map<Device, seq<Point>>, batch: seq<Point>, tags: seq<Device>)
    requires |batch| == |tags|
  {
    && (forall d :: d in byDevice <==> d in tags)
    && (forall d | d in byDevice :: byDevice[d] == Share(batch, tags, d))
  }

  /** The grouping loop of publish_data_batch. */
  method GroupByDevice(batch: seq<Point>, tags: seq<Device>) returns (byDevice: map<Device, seq<Point>>)
    requires |batch| == |tags|
    ensures IsByDevice(byDevice, batch, tags)
  {
    hide IsByDevice;
    byDevice := map[];
    NothingGrouped();
    for i := 0 to |batch|
      invariant IsByDevice(byDevice, batch[..i], tags[..i])
    {
      var device := tags[i];
      GroupedMore(byDevice, batch[..i + 1], tags[..i + 1]);
      assert batch[..i + 1][..i] == batch[..i] && tags[..i + 1][..i] == tags[..i];
      if device !in byDevice {
        byDevice := byDevice[device := []];
      }
      byDevice := byDevice[device := byDevice[device] + [batch[i]]];
    }
    assert batch[..|batch|] == batch && tags[..|batch|] == tags;
  }

  lemma NothingGrouped()
    ensures IsByDevice(map[], [], [])
  {
  }

  lemma LastShare(batch: seq<Point>, tags: seq<Device>, d: Device)
    requires |batch| == |tags| > 0
    ensures var n := |batch| - 1;
      Share(batch, tags, d) == Share(batch[..n], tags[..n], d) + if tags[n] == d then [batch[n]] else []
  {
  }

  lemma GroupedMore(before: map<Device, seq<Point>>, batch: seq<Point>, tags: seq<Device>)
    requires |batch| == |tags| > 0
    ensures var n := |batch| - 1;
      var added := (if tags[n] in before then before[tags[n]] else []) + [batch[n]];
      IsByDevice(before, batch[..n], tags[..n])
      ==> IsByDevice(before[tags[n] := added], batch, tags)
          && IsByDevice(before[tags[n] := []][tags[n] := added], batch, tags)
  {
    var n := |batch| - 1;
    var added := (if tags[n] in before then before[tags[n]] else []) + [batch[n]];
    assert before[tags[n] := []][tags[n] := added] == before[tags[n] := added];
    if IsByDevice(before, batch[..n], tags[..n]) {
      assert tags == tags[..n] + [tags[n]];
      if tags[n] !in before {
        NoShare(batch[..n], tags[..n], tags[n]);
      }
      hide Share;
      forall d: Device
        ensures Share(batch, tags, d) == Share(batch[..n], tags[..n], d) + if tags[n] == d then [batch[n]] else []
      {
        LastShare(batch, tags, d);
      }
    }
  }

  lemma {:induction false} NoShare(batch: seq<Point>, tags: seq<Device>, device: Device)
    requires |batch| == |tags| && device !in tags
    ensures Share(batch, tags, device) == []
    decreases |batch|
  {
    if batch != [] {
      NoShare(batch[..|batch| - 1], tags[..|batch| - 1], device);
    }
  }

  /** All points of a list of groups. */
  ghost function Points(groups: seq<Group>): multiset<Point> {
    if groups == [] then multiset{} else multiset(groups[0].points) + Points(groups[1..])
  }

  /** The groups of a flush: some listing of the batch's points by device. */
  ghost predicate IsGrouping(groups: seq<Group>, batch: seq<Point>) {
    exists tags, byDevice :: |tags| == |batch| && IsByDevice(byDevice, batch, tags) && Lists(groups, byDevice)
  }

  ghost predicate Distinct(devices: seq<Device>) {
    forall i, j | 0 <= i < j < |devices| :: devices[i] != devices[j]
  }

  ghost function Shares(batch: seq<Point>, tags: seq<Device>, devices: seq<Device>): multiset<Point>
    requires |batch| == |tags|
    decreases |devices|
  {
    if devices == [] then multiset{}
    else multiset(Share(batch, tags, devices[0])) + Shares(batch, tags, devices[1..])
  }

  lemma {:induction false} OneMorePoint(batch: seq<Point>, tags: seq<Device>, devices: seq<Device>)
    requires |batch| == |tags| && batch != [] && Distinct(devices)
    ensures var n := |batch| - 1;
      Shares(batch, tags, devices)
      == Shares(batch[..n], tags[..n], devices) + (if tags[n] in devices then multiset{batch[n]} else multiset{})
    decreases |devices|
  {
    if devices != [] {
      var n := |batch| - 1;
      ShareStep(batch, tags, devices[0]);
      hide Share;
      OneMorePoint(batch, tags, devices[1..]);
      assert tags[n] in devices <==> tags[n] == devices[0] || tags[n] in devices[1..];
    }
  }

  lemma ShareStep(batch: seq<Point>, tags: seq<Device>, device: Device)
    requires |batch| == |tags| && batch != []
    ensures var n := |batch| - 1;
      multiset(Share(batch, tags, device))
      == multiset(Share(batch[..n], tags[..n], device)) + (if tags[n] == device then multiset{batch[n]} else multiset{})
  {
  }

  ghost predicate Covers(devices: seq<Device>, tags: seq<Device>) {
    forall t | t in tags :: t in devices
  }

  lemma CoversLast(devices: seq<Device>, tags: seq<Device>)
    requires Covers(devices, tags) && tags != []
    ensures Covers(devices, tags[..|tags| - 1]) && tags[|tags| - 1] in devices
  {
    assert tags[|tags| - 1] in tags;
  }

  lemma SplitLast(batch: seq<Point>)
    requires batch != []
    ensures multiset(batch) == multiset(batch[..|batch| - 1]) + multiset{batch[|batch| - 1]}
  {
    assert batch == batch[..|batch| - 1] + [batch[|batch| - 1]];
  }

  lemma {:induction false} SharesCover(batch: seq<Point>, tags: seq<Device>, devices: seq<Device>)
    requires |batch| == |tags| && Distinct(devices) && Covers(devices, tags)
    ensures Shares(batch, tags, devices) == multiset(batch)
    decreases |batch|
  {
    hide *;
    if batch == [] {
      NothingShared(tags, devices);
    } else {
      var n := |batch| - 1;
      CoversLast(devices, tags);
      SharesCover(batch[..n], tags[..n], devices);
      OneMorePoint(batch, tags, devices);
      SplitLast(batch);
    }
  }

  lemma {:induction false} NothingShared(tags: seq<Device>, devices: seq<Device>)
    requires tags == []
    ensures Shares([], tags, devices) == multiset{}
    decreases |devices|
  {
    if devices != [] {
      NothingShared(tags, devices[1..]);
    }
  }

  ghost function Devices(groups: seq<Group>): (ds: seq<Device>)
    ensures |ds| == |groups| && forall i | 0 <= i < |groups| :: ds[i] == groups[i].device
  {
    if groups == [] then [] else [groups[0].device] + Devices(groups[1..])
  }

  lemma {:induction false} PointsAreShares(groups: seq<Group>, batch: seq<Point>, tags: seq<Device>)
    requires |batch| == |tags|
    requires forall i | 0 <= i < |groups| :: groups[i].points == Share(batch, tags, groups[i].device)
    ensures Points(groups) == Shares(batch, tags, Devices(groups))
    decreases |groups|
  {
    hide Share;
    if groups != [] {
      PointsAreShares(groups[1..], batch, tags);
      assert Devices(groups)[1..] == Devices(groups[1..]);
    }
  }

  /** A flush splits the batch: the groups' points together are exactly the batch's. */
  lemma GroupingPartitions(groups: seq<Group>, batch: seq<Point>)
    requires IsGrouping(groups, batch)
    ensures Points(groups) == multiset(batch)
  {
    hide Points, Shares, Share;
    var tags, byDevice :| |tags| == |batch| && IsByDevice(byDevice, batch, tags) && Lists(groups, byDevice);
    PointsAreShares(groups, batch, tags);
    forall t | t in tags
      ensures t in Devices(groups)
    {
      var i :| 0 <= i < |groups| && groups[i].device == t;
      assert Devices(groups)[i] == t;
    }
    SharesCover(batch, tags, Devices(groups));
  }

  // ------------------------------------------------------------ the state machine

  /** Threads 0 .. workers-1 run worker_loop; the others are the batch timer and the
      callers of flush. Outside batching mode the batch is never filled. */
  datatype Config = Config(workers: nat, threads: nat, batching: bool, batchSize: nat, queueSize: nat)

  /** Where a thread stands. Wrapping means: it has done fetch_add, seen 255 or more,
      and not yet done store(0). */
  datatype Thread =
    | Idle
    | Holding(point: Point)
    | Flushing(todo: seq<Group>)
    | WrappingSingle
    | WrappingFlush(todo: seq<Group>)
  {
    predicate Wrapping() { WrappingSingle? || WrappingFlush? }

    predicate HasLock() { Flushing? || WrappingFlush? }

    /** The points in the thread's hands: popped, or grouped and not yet published. */
    ghost function Load(): multiset<Point> {
      match this
      case Holding(p) => multiset{p}
      case Flushing(todo) => Points(todo)
      case WrappingFlush(todo) => Points(todo)
      case _ => multiset{}
    }
  }

  /** accepted, handed and published are history: the points write took, those given to
      publish, in order, and the successful publishes since the last rebirth. */
  datatype State = State(
    running: bool, queue: seq<Point>, batch: seq<Point>, threads: seq<Thread>, sequence: nat,
    accepted: seq<Point>, handed: seq<Point>, published: nat)

  ghost predicate Init(c: Config, s: State) {
    && s.running && s.queue == [] && s.batch == [] && s.sequence == 0 && s.published == 0
    && |s.threads| == c.threads >= c.workers && (forall t | 0 <= t < c.threads :: s.threads[t] == Idle)
    && s.accepted == [] && s.handed == []
  }

  datatype Step =
    | Write(point: Point)
    | Pop(t: nat)
    | AddToBatch(t: nat, groups: seq<Group>)
    | PublishPoint(t: nat, success: bool)
    | StartFlush(t: nat, groups: seq<Group>)
    | PublishGroup(t: nat, success: bool)
    | StoreZero(t: nat)
    | EndFlush(t: nat)
    | Rebirth
    | Stop
    | Restart

  ghost predicate LockFree(s: State) {
    forall t | 0 <= t < |s.threads| :: !s.threads[t].HasLock()
  }

  ghost function At(s: State, t: nat, thread: Thread): State
    requires t < |s.threads|
  {
    s.(threads := s.threads[t := thread])
  }

  /** fetch_add(1), and the decision whether store(0) has to follow. */
  ghost function Advanced(s: State, success: bool): State {
    if success then s.(sequence := s.sequence + 1, published := s.published + 1) else s
  }

  ghost predicate MustWrap(s: State, success: bool) {
    success && s.sequence >= 255
  }

  /** write: refused while stopped or full. */
  ghost predicate Writes(c: Config, s: State, p: Point, s': State) {
    if s.running && |s.queue| < c.queueSize
    then s' == s.(queue := s.queue + [p], accepted := s.accepted + [p])
    else s' == s
  }

  /** worker_loop takes the front of the queue. */
  ghost predicate Pops(c: Config, s: State, t: nat, s': State) {
    && s.running && s.queue != [] && t < c.workers && t < |s.threads| && s.threads[t] == Idle
    && s' == At(s, t, Holding(s.queue[0])).(queue := s.queue[1..])
  }

  /** worker_loop under the batch lock: add, and begin a flush when the size is reached. */
  ghost predicate Adds(c: Config, s: State, t: nat, groups: seq<Group>, s': State) {
    && c.batching && t < |s.threads| && s.threads[t].Holding? && LockFree(s)
    && var batch := s.batch + [s.threads[t].point];
       if |batch| >= c.batchSize
       then IsGrouping(groups, batch) && s' == At(s, t, Flushing(groups)).(batch := batch)
       else s' == At(s, t, Idle).(batch := batch)
  }

  /** publish_data_point, up to and including fetch_add. */
  ghost predicate PublishesPoint(c: Config, s: State, t: nat, success: bool, s': State) {
    && !c.batching && t < |s.threads| && s.threads[t].Holding?
    && s' == At(Advanced(s, success), t, if MustWrap(s, success) then WrappingSingle else Idle)
               .(handed := s.handed + [s.threads[t].point])
  }

  /** The batch timer or a caller of flush takes the lock of a non-empty batch. */
  ghost predicate StartsFlush(c: Config, s: State, t: nat, groups: seq<Group>, s': State) {
    && c.workers <= t < |s.threads| && s.threads[t] == Idle && LockFree(s)
    && s.batch != [] && IsGrouping(groups, s.batch) && s' == At(s, t, Flushing(groups))
  }

  /** publish_data_batch for one group, up to and including fetch_add. */
  ghost predicate PublishesGroup(c: Config, s: State, t: nat, success: bool, s': State) {
    && t < |s.threads| && s.threads[t].Flushing? && s.threads[t].todo != []
    && var g, rest := s.threads[t].todo[0], s.threads[t].todo[1..];
       s' == At(Advanced(s, success), t, if MustWrap(s, success) then WrappingFlush(rest) else Flushing(rest))
               .(handed := s.handed + g.points)
  }

  ghost predicate StoresZero(s: State, t: nat, s': State) {
    && t < |s.threads| && s.threads[t].Wrapping()
    && s' == At(s, t, if s.threads[t].WrappingSingle? then Idle else Flushing(s.threads[t].todo)).(sequence := 0)
  }

  /** The batch is cleared and the lock released. */
  ghost predicate EndsFlush(s: State, t: nat, s': State) {
    t < |s.threads| && s.threads[t] == Flushing([]) && s' == At(s, t, Idle).(batch := [])
  }

  /** start after stop, which has waited for the workers: queue, batch and number are kept. */
  ghost predicate Restarts(c: Config, s: State, s': State) {
    && !s.running && (forall t | 0 <= t < c.workers && t < |s.threads| :: s.threads[t] == Idle)
    && s' == s.(running := true)
  }

  ghost predicate Next(c: Config, s: State, step: Step, s': State) {
    match step
    case Write(p) => Writes(c, s, p, s')
    case Pop(t) => Pops(c, s, t, s')
    case AddToBatch(t, groups) => Adds(c, s, t, groups, s')
    case PublishPoint(t, success) => PublishesPoint(c, s, t, success, s')
    case StartFlush(t, groups) => StartsFlush(c, s, t, groups, s')
    case PublishGroup(t, success) => PublishesGroup(c, s, t, success, s')
    case StoreZero(t) => StoresZero(s, t, s')
    case EndFlush(t) => EndsFlush(s, t, s')
    case Rebirth => s' == s.(sequence := 0, published := 0)
    case Stop => s' == s.(running := false)
    case Restart => Restarts(c, s, s')
  }

  ghost predicate IsRun(c: Config, states: seq<State>, steps: seq<Step>) {
    && |states| == |steps| + 1 && Init(c, states[0])
    && forall i | 0 <= i < |steps| :: Next(c, states[i], steps[i], states[i + 1])
  }

  // ---------------------------------------------------------------- invariants

  ghost function Loads(threads: seq<Thread>): multiset<Point> {
    if threads == [] then multiset{} else threads[0].Load() + Loads(threads[1..])
  }

  ghost function WrappingCount(threads: seq<Thread>): nat {
    if threads == [] then 0 else (if threads[0].Wrapping() then 1 else 0) + WrappingCount(threads[1..])
  }

  /** The batch proper: once a flush has begun its points are in the flusher's hands. */
  ghost function Pending(s: State): multiset<Point> {
    if LockFree(s) then multiset(s.batch) else multiset{}
  }

  /** Every accepted point is in the queue, in a thread's hands, in the batch, or handed
      to publish, and in only one of them. */
  ghost predicate Conserved(s: State) {
    multiset(s.accepted) == multiset(s.queue) + Loads(s.threads) + Pending(s) + multiset(s.handed)
  }

  ghost predicate OneLockHolder(s: State) {
    forall t, u | 0 <= t < u < |s.threads| :: !(s.threads[t].HasLock() && s.threads[u].HasLock())
  }

  ghost predicate BatchBounded(c: Config, s: State) {
    LockFree(s) ==> s.batch == [] || (c.batching && |s.batch| < c.batchSize)
  }

  ghost predicate Inv(c: Config, s: State) {
    && |s.threads| == c.threads >= c.workers
    && Conserved(s) && OneLockHolder(s) && BatchBounded(c, s)
    && |s.queue| <= c.queueSize
    && s.sequence <= 255 + WrappingCount(s.threads)
  }

  lemma {:induction false} LoadsUpdate(threads: seq<Thread>, t: nat, thread: Thread)
    requires t < |threads|
    ensures Loads(threads[t := thread]) + threads[t].Load() == Loads(threads) + thread.Load()
    decreases t
  {
    hide Thread.Load;
    var u := threads[t := thread];
    if t == 0 {
      assert u[1..] == threads[1..];
    } else {
      assert u[1..] == threads[1..][t - 1 := thread];
      LoadsUpdate(threads[1..], t - 1, thread);
      var h, x, y := threads[0].Load(), threads[t].Load(), thread.Load();
      assert Loads(u) + x == h + (Loads(u[1..]) + x);
      assert Loads(threads) + y == h + (Loads(threads[1..]) + y);
    }
  }

  lemma {:induction false} WrappingUpdate(threads: seq<Thread>, t: nat, thread: Thread)
    requires t < |threads|
    ensures WrappingCount(threads[t := thread]) + (if threads[t].Wrapping() then 1 else 0)
         == WrappingCount(threads) + (if thread.Wrapping() then 1 else 0)
    decreases t
  {
    var u := threads[t := thread];
    if t == 0 {
      assert u[1..] == threads[1..];
    } else {
      assert u[1..] == threads[1..][t - 1 := thread];
      WrappingUpdate(threads[1..], t - 1, thread);
    }
  }

  lemma {:induction false} AllIdle(threads: seq<Thread>)
    requires forall t | 0 <= t < |threads| :: threads[t] == Idle
    ensures Loads(threads) == multiset{} && WrappingCount(threads) == 0
    decreases |threads|
  {
    if threads != [] {
      AllIdle(threads[1..]);
    }
  }

  lemma InitInv(c: Config, s: State)
    requires Init(c, s)
    ensures Inv(c, s)
  {
    AllIdle(s.threads);
  }

  lemma ThreadUpdate(s: State, t: nat, thread: Thread)
    requires t < |s.threads|
    ensures Loads(s.threads[t := thread]) + s.threads[t].Load() == Loads(s.threads) + thread.Load()
    ensures WrappingCount(s.threads[t := thread]) + (if s.threads[t].Wrapping() then 1 else 0)
         == WrappingCount(s.threads) + (if thread.Wrapping() then 1 else 0)
  {
    LoadsUpdate(s.threads, t, thread);
    WrappingUpdate(s.threads, t, thread);
  }

  /** A thread's load changes by what the rest of the pipeline gives or takes. */
  lemma Rebalance(s: State, s': State, t: nat, thread: Thread)
    requires t < |s.threads| && s'.threads == s.threads[t := thread] && Conserved(s)
    requires s'.accepted == s.accepted
    requires multiset(s'.queue) + Pending(s') + multiset(s'.handed) + thread.Load()
          == multiset(s.queue) + Pending(s) + multiset(s.handed) + s.threads[t].Load()
    ensures Conserved(s')
  {
    ThreadUpdate(s, t, thread);
    hide Pending, Loads, Thread.Load, LockFree;
    var x, y := s.threads[t].Load(), thread.Load();
    var l, l' := Loads(s.threads), Loads(s'.threads);
    var r := multiset(s.queue) + Pending(s) + multiset(s.handed);
    var r' := multiset(s'.queue) + Pending(s') + multiset(s'.handed);
    Balance(l, l', r, r', x, y);
    assert multiset(s'.accepted) == r' + l';
  }

  lemma Balance(l: multiset<Point>, l': multiset<Point>, r: multiset<Point>, r': multiset<Point>,
                x: multiset<Point>, y: multiset<Point>)
    requires l' + x == l + y && r' + y == r + x
    ensures r' + l' == r + l
  {
    assert (r' + l') + (x + y) == (r' + y) + (l' + x);
    assert (r + l) + (x + y) == (r + x) + (l + y);
    assert r' + l' == (r' + l') + (x + y) - (x + y);
    assert r + l == (r + l) + (x + y) - (x + y);
  }

  lemma NextConserves(c: Config, s: State, step: Step, s': State)
    requires Conserved(s) && Next(c, s, step, s')
    ensures Conserved(s')
  {
    match step
    case Write(p) => WriteConserves(c, s, p, s');
    case Pop(t) => PopConserves(c, s, t, s');
    case AddToBatch(t, groups) => AddConserves(c, s, t, groups, s');
    case PublishPoint(t, success) => PublishPointConserves(c, s, t, success, s');
    case StartFlush(t, groups) => StartFlushConserves(c, s, t, groups, s');
    case PublishGroup(t, success) => PublishGroupConserves(c, s, t, success, s');
    case StoreZero(t) => StoreZeroConserves(s, t, s');
    case EndFlush(t) => EndFlushConserves(s, t, s');
    case Rebirth => SameThreads(s, s');
    case Stop => SameThreads(s, s');
    case Restart => SameThreads(s, s');
  }

  lemma WriteConserves(c: Config, s: State, p: Point, s': State)
    requires Conserved(s) && Writes(c, s, p, s')
    ensures Conserved(s')
  {
    SameThreads(s, s');
    hide Loads, LockFree;
    assert multiset(s.queue + [p]) == multiset(s.queue) + multiset{p};
  }

  lemma PopHands(c: Config, s: State, t: nat, s': State)
    requires Pops(c, s, t, s')
    ensures t < |s.threads| == |s'.threads| && s'.threads == s.threads[t := s'.threads[t]]
    ensures s'.batch == s.batch && s'.accepted == s.accepted && s'.handed == s.handed
    ensures !s.threads[t].HasLock() && !s'.threads[t].HasLock()
    ensures s.queue != [] && s'.queue == s.queue[1..]
    ensures s.threads[t].Load() == multiset{} && s'.threads[t].Load() == multiset{s.queue[0]}
  {
  }

  lemma SplitFirst(q: seq<Point>)
    requires q != []
    ensures multiset(q) == multiset{q[0]} + multiset(q[1..])
  {
    assert q == [q[0]] + q[1..];
  }

  lemma SamePending(s: State, s': State)
    requires s'.batch == s.batch && LockFree(s') == LockFree(s)
    ensures Pending(s') == Pending(s)
  {
    hide LockFree;
  }

  lemma PopConserves(c: Config, s: State, t: nat, s': State)
    requires Conserved(s) && Pops(c, s, t, s')
    ensures Conserved(s')
  {
    hide *;
    PopHands(c, s, t, s');
    SameLock(s, s', t, s'.threads[t]);
    SamePending(s, s');
    SplitFirst(s.queue);
    Rebalance(s, s', t, s'.threads[t]);
  }

  /** Adding to the batch: the point goes from the hand into the batch, or with the whole
      batch into the flusher's hands. */
  lemma AddHands(c: Config, s: State, t: nat, groups: seq<Group>, s': State)
    requires Adds(c, s, t, groups, s')
    ensures t < |s.threads| == |s'.threads| && s'.threads == s.threads[t := s'.threads[t]]
    ensures s'.queue == s.queue && s'.accepted == s.accepted && s'.handed == s.handed
    ensures Pending(s) == multiset(s.batch)
    ensures s.threads[t].Holding? && s.threads[t].Load() == multiset{s.threads[t].point}
    ensures multiset(s.batch) + s.threads[t].Load() == Pending(s') + s'.threads[t].Load()
  {
    var batch := s.batch + [s.threads[t].point];
    assert multiset(batch) == multiset(s.batch) + multiset{s.threads[t].point};
    hide IsGrouping, Points;
    if |batch| >= c.batchSize {
      GroupingPartitions(groups, batch);
      TakesLock(s', t);
    } else {
      SameLock(s, s', t, Idle);
    }
    hide LockFree;
  }

  lemma AddConserves(c: Config, s: State, t: nat, groups: seq<Group>, s': State)
    requires Conserved(s) && Adds(c, s, t, groups, s')
    ensures Conserved(s')
  {
    hide *;
    AddHands(c, s, t, groups, s');
    Reorder(multiset(s.queue), multiset(s.handed), Pending(s), s.threads[t].Load(), Pending(s'), s'.threads[t].Load());
    Rebalance(s, s', t, s'.threads[t]);
  }

  lemma Reorder(q: multiset<Point>, h: multiset<Point>, p: multiset<Point>, l: multiset<Point>,
                p': multiset<Point>, l': multiset<Point>)
    requires p + l == p' + l'
    ensures q + p' + h + l' == q + p + h + l
  {
    assert q + p' + h + l' == q + h + (p' + l');
    assert q + p + h + l == q + h + (p + l);
  }

  lemma PublishPointConserves(c: Config, s: State, t: nat, success: bool, s': State)
    requires Conserved(s) && PublishesPoint(c, s, t, success, s')
    ensures Conserved(s')
  {
    PublishPointHands(c, s, t, success, s');
    hide PublishesPoint;
    SameLock(s, s', t, s'.threads[t]);
    hide Loads, LockFree, Conserved, Thread.Load, Thread.HasLock;
    Rebalance(s, s', t, s'.threads[t]);
  }

  lemma PublishPointHands(c: Config, s: State, t: nat, success: bool, s': State)
    requires PublishesPoint(c, s, t, success, s')
    ensures t < |s.threads| == |s'.threads| && s'.threads == s.threads[t := s'.threads[t]]
    ensures s'.queue == s.queue && s'.batch == s.batch && s'.accepted == s.accepted
    ensures !s.threads[t].HasLock() && !s'.threads[t].HasLock() && s'.threads[t].Load() == multiset{}
    ensures multiset(s'.handed) == multiset(s.handed) + s.threads[t].Load()
  {
  }

  lemma StartFlushConserves(c: Config, s: State, t: nat, groups: seq<Group>, s': State)
    requires Conserved(s) && StartsFlush(c, s, t, groups, s')
    ensures Conserved(s')
  {
    hide Loads, IsGrouping, Conserved, Points;
    GroupingPartitions(groups, s.batch);
    TakesLock(s', t);
    Rebalance(s, s', t, Flushing(groups));
  }

  lemma PublishGroupConserves(c: Config, s: State, t: nat, success: bool, s': State)
    requires Conserved(s) && PublishesGroup(c, s, t, success, s')
    ensures Conserved(s')
  {
    FirstGroup(s.threads[t].todo);
    SameLock(s, s', t, s'.threads[t]);
    hide Loads, LockFree, Conserved, Points;
    Rebalance(s, s', t, s'.threads[t]);
  }

  lemma StoreZeroConserves(s: State, t: nat, s': State)
    requires Conserved(s) && StoresZero(s, t, s')
    ensures Conserved(s')
  {
    SameLock(s, s', t, s'.threads[t]);
    hide Loads, LockFree, Conserved, Points;
    Rebalance(s, s', t, s'.threads[t]);
  }

  lemma EndFlushConserves(s: State, t: nat, s': State)
    requires Conserved(s) && EndsFlush(s, t, s')
    ensures Conserved(s')
  {
    NoGroups();
    TakesLock(s, t);
    hide Loads, Conserved, Points;
    assert Pending(s') == multiset{};
    Rebalance(s, s', t, Idle);
  }

  lemma SameThreads(s: State, s': State)
    requires s'.threads == s.threads
    ensures LockFree(s') == LockFree(s)
  {
  }

  lemma TakesLock(s: State, t: nat)
    requires t < |s.threads| && s.threads[t].HasLock()
    ensures !LockFree(s)
  {
  }

  /** A thread whose hold on the lock does not change leaves the lock as it is. */
  lemma SameLock(s: State, s': State, t: nat, thread: Thread)
    requires t < |s.threads| && s'.threads == s.threads[t := thread]
    requires thread.HasLock() == s.threads[t].HasLock()
    ensures LockFree(s') == LockFree(s)
  {
    forall u | 0 <= u < |s.threads|
      ensures s'.threads[u].HasLock() == s.threads[u].HasLock()
    {
    }
  }

  lemma FirstGroup(groups: seq<Group>)
    requires groups != []
    ensures Points(groups) == multiset(groups[0].points) + Points(groups[1..])
  {
  }

  lemma NoGroups()
    ensures Points([]) == multiset{}
  {
  }

  /** A thread that takes the lock finds it free. */
  lemma HolderKept(s: State, s': State, t: nat, thread: Thread)
    requires OneLockHolder(s) && t < |s.threads| && s'.threads == s.threads[t := thread]
    requires thread.HasLock() ==> s.threads[t].HasLock() || LockFree(s)
    ensures OneLockHolder(s')
  {
  }

  lemma SameHolder(s: State, s': State)
    requires OneLockHolder(s) && s'.threads == s.threads
    ensures OneLockHolder(s')
  {
  }

  lemma NextKeepsOneHolder(c: Config, s: State, step: Step, s': State)
    requires OneLockHolder(s) && Next(c, s, step, s')
    ensures OneLockHolder(s')
  {
    hide OneLockHolder, LockFree, IsGrouping, Advanced, MustWrap;
    match step
    case Pop(t) => HolderKept(s, s', t, s'.threads[t]);
    case AddToBatch(t, groups) => HolderKept(s, s', t, s'.threads[t]);
    case PublishPoint(t, success) => PublishPointThreads(c, s, t, success, s');
    case StartFlush(t, groups) => HolderKept(s, s', t, s'.threads[t]);
    case PublishGroup(t, success) => PublishGroupThreads(c, s, t, success, s');
    case StoreZero(t) => HolderKept(s, s', t, s'.threads[t]);
    case EndFlush(t) => HolderKept(s, s', t, s'.threads[t]);
    case _ => SameHolder(s, s');
  }

  lemma PublishPointThreads(c: Config, s: State, t: nat, success: bool, s': State)
    requires OneLockHolder(s) && PublishesPoint(c, s, t, success, s')
    ensures OneLockHolder(s')
  {
    hide OneLockHolder, LockFree;
    HolderKept(s, s', t, s'.threads[t]);
  }

  lemma PublishGroupThreads(c: Config, s: State, t: nat, success: bool, s': State)
    requires OneLockHolder(s) && PublishesGroup(c, s, t, success, s')
    ensures OneLockHolder(s')
  {
    hide OneLockHolder, LockFree;
    HolderKept(s, s', t, s'.threads[t]);
  }

  lemma BatchKept(c: Config, s: State, s': State, t: nat, thread: Thread)
    requires BatchBounded(c, s) && s'.batch == s.batch
    requires t < |s.threads| && s'.threads == s.threads[t := thread] && thread.HasLock() == s.threads[t].HasLock()
    ensures BatchBounded(c, s')
  {
    SameLock(s, s', t, thread);
    hide LockFree;
  }

  lemma BatchSame(c: Config, s: State, s': State)
    requires BatchBounded(c, s) && s'.batch == s.batch && s'.threads == s.threads
    ensures BatchBounded(c, s')
  {
    SameThreads(s, s');
    hide LockFree;
  }

  /** While a flusher holds the lock nothing is asked of the batch. */
  lemma BatchLocked(c: Config, s: State, t: nat)
    requires t < |s.threads| && s.threads[t].HasLock()
    ensures BatchBounded(c, s)
  {
    TakesLock(s, t);
    hide LockFree;
  }

  lemma AddBoundsBatch(c: Config, s: State, t: nat, groups: seq<Group>, s': State)
    requires Adds(c, s, t, groups, s')
    ensures BatchBounded(c, s')
  {
    hide IsGrouping, LockFree;
    if |s.batch + [s.threads[t].point]| >= c.batchSize {
      BatchLocked(c, s', t);
    }
  }

  lemma PublishBoundsBatch(c: Config, s: State, t: nat, success: bool, s': State)
    requires BatchBounded(c, s)
    ensures PublishesPoint(c, s, t, success, s') ==> BatchBounded(c, s')
    ensures PublishesGroup(c, s, t, success, s') ==> BatchBounded(c, s')
  {
    hide BatchBounded;
    if PublishesPoint(c, s, t, success, s') {
      BatchKept(c, s, s', t, s'.threads[t]);
    }
    if PublishesGroup(c, s, t, success, s') {
      BatchLocked(c, s', t);
    }
  }

  lemma NextBoundsBatch(c: Config, s: State, step: Step, s': State)
    requires BatchBounded(c, s) && Next(c, s, step, s')
    ensures BatchBounded(c, s')
  {
    hide IsGrouping, BatchBounded, PublishesPoint, PublishesGroup, LockFree, Adds;
    match step
    case Pop(t) => BatchKept(c, s, s', t, s'.threads[t]);
    case AddToBatch(t, groups) => AddBoundsBatch(c, s, t, groups, s');
    case PublishPoint(t, success) => PublishBoundsBatch(c, s, t, success, s');
    case StartFlush(t, groups) => BatchLocked(c, s', t);
    case PublishGroup(t, success) => PublishBoundsBatch(c, s, t, success, s');
    case StoreZero(t) => BatchKept(c, s, s', t, s'.threads[t]);
    case EndFlush(t) => EmptyBatch(c, s');
    case _ => BatchSame(c, s, s');
  }

  lemma EmptyBatch(c: Config, s: State)
    requires s.batch == []
    ensures BatchBounded(c, s)
  {
  }

  lemma NextBoundsQueue(c: Config, s: State, step: Step, s': State)
    requires |s.queue| <= c.queueSize && Next(c, s, step, s')
    ensures |s'.queue| <= c.queueSize
  {
    hide IsGrouping, LockFree;
  }

  /** A step that does not publish and leaves the thread's kind alone. */
  lemma SequenceKept(s: State, s': State, t: nat, thread: Thread)
    requires s.sequence <= 255 + WrappingCount(s.threads) && t < |s.threads|
    requires s'.threads == s.threads[t := thread] && s'.sequence == s.sequence
    requires thread.Wrapping() == s.threads[t].Wrapping()
    ensures s'.sequence <= 255 + WrappingCount(s'.threads) && |s'.threads| == |s.threads|
  {
    hide WrappingCount, Thread.Wrapping;
    WrappingUpdate(s.threads, t, thread);
  }

  /** fetch_add: past 255 the thread is counted as one that still has to store zero. */
  lemma SequenceAdvanced(s: State, success: bool, s': State, t: nat, wrap: Thread, go: Thread)
    requires s.sequence <= 255 + WrappingCount(s.threads) && t < |s.threads| && !s.threads[t].Wrapping()
    requires wrap.Wrapping() && !go.Wrapping()
    requires s'.threads == s.threads[t := if MustWrap(s, success) then wrap else go]
    requires s'.sequence == Advanced(s, success).sequence
    ensures s'.sequence <= 255 + WrappingCount(s'.threads) && |s'.threads| == |s.threads|
  {
    hide WrappingCount, Thread.Wrapping;
    WrappingUpdate(s.threads, t, if MustWrap(s, success) then wrap else go);
  }

  lemma NextBoundsSequence(c: Config, s: State, step: Step, s': State)
    requires s.sequence <= 255 + WrappingCount(s.threads) && Next(c, s, step, s')
    ensures s'.sequence <= 255 + WrappingCount(s'.threads)
    ensures |s'.threads| == |s.threads|
  {
    hide IsGrouping, LockFree, WrappingCount, Advanced, MustWrap;
    match step
    case Pop(t) => SequenceKept(s, s', t, s'.threads[t]);
    case AddToBatch(t, groups) => SequenceKept(s, s', t, s'.threads[t]);
    case PublishPoint(t, success) => PublishPointBound(c, s, t, success, s');
    case StartFlush(t, groups) => SequenceKept(s, s', t, s'.threads[t]);
    case PublishGroup(t, success) => PublishGroupBound(c, s, t, success, s');
    case EndFlush(t) => SequenceKept(s, s', t, s'.threads[t]);
    case _ =>
  }

  lemma PublishPointBound(c: Config, s: State, t: nat, success: bool, s': State)
    requires s.sequence <= 255 + WrappingCount(s.threads) && PublishesPoint(c, s, t, success, s')
    ensures s'.sequence <= 255 + WrappingCount(s'.threads) && |s'.threads| == |s.threads|
  {
    hide WrappingCount;
    SequenceAdvanced(s, success, s', t, WrappingSingle, Idle);
  }

  lemma PublishGroupBound(c: Config, s: State, t: nat, success: bool, s': State)
    requires s.sequence <= 255 + WrappingCount(s.threads) && PublishesGroup(c, s, t, success, s')
    ensures s'.sequence <= 255 + WrappingCount(s'.threads) && |s'.threads| == |s.threads|
  {
    hide WrappingCount;
    var rest := s.threads[t].todo[1..];
    SequenceAdvanced(s, success, s', t, WrappingFlush(rest), Flushing(rest));
  }

  lemma NextInv(c: Config, s: State, step: Step, s': State)
    requires Inv(c, s) && Next(c, s, step, s')
    ensures Inv(c, s')
  {
    hide Next, Conserved, OneLockHolder, BatchBounded, WrappingCount;
    NextConserves(c, s, step, s');
    NextKeepsOneHolder(c, s, step, s');
    NextBoundsBatch(c, s, step, s');
    NextBoundsQueue(c, s, step, s');
    NextBoundsSequence(c, s, step, s');
  }

  /** Main result: in every state of every run, under any interleaving, no point is lost
      or doubled, the batch is below its size whenever the lock is free, and the sequence
      number is at most 255 plus the number of threads between their two operations. */
  lemma {:induction false} RunInv(c: Config, states: seq<State>, steps: seq<Step>, i: nat)
    requires IsRun(c, states, steps) && i < |states|
    ensures Inv(c, states[i])
    decreases i
  {
    hide Init, Next, Inv;
    if i == 0 {
      InitInv(c, states[0]);
    } else {
      RunInv(c, states, steps, i - 1);
      NextInv(c, states[i - 1], steps[i - 1], states[i]);
    }
  }

  // ---------------------------------------------- the sequence number, exactly

  /** Publishing is one thread at a time: under the batch lock, or by the only worker. */
  predicate Serial(c: Config) {
    c.batching || c.workers <= 1
  }

  ghost predicate NoneWrapping(s: State) {
    forall t | 0 <= t < |s.threads| :: !s.threads[t].Wrapping()
  }

  /** Batching threads publish groups only. Otherwise only workers do anything, and
      nothing is ever flushed. */
  predicate Fits(c: Config, t: nat, thread: Thread) {
    if c.batching then !thread.WrappingSingle? else !thread.HasLock() && (thread != Idle ==> t < c.workers)
  }

  ghost predicate InPlace(c: Config, s: State) {
    && (!c.batching ==> s.batch == [])
    && forall t | 0 <= t < |s.threads| :: Fits(c, t, s.threads[t])
  }

  /** The sequence number counts publishes modulo 256, and between the two atomic
      operations that count is a multiple of 256. */
  ghost predicate Counts(s: State) {
    if NoneWrapping(s) then s.sequence == s.published % 256 else s.published % 256 == 0
  }

  lemma ThreadInPlace(c: Config, s: State, s': State, t: nat, thread: Thread)
    requires InPlace(c, s) && t < |s.threads| && s'.threads == s.threads[t := thread]
    requires Fits(c, t, s.threads[t]) ==> Fits(c, t, thread)
    requires s'.batch == s.batch || c.batching || s'.batch == []
    ensures InPlace(c, s')
  {
    hide Fits;
  }

  lemma SameInPlace(c: Config, s: State, s': State)
    requires InPlace(c, s) && s'.threads == s.threads && s'.batch == s.batch
    ensures InPlace(c, s')
  {
  }

  lemma NextInPlace(c: Config, s: State, step: Step, s': State)
    requires InPlace(c, s) && Next(c, s, step, s')
    ensures InPlace(c, s')
  {
    hide InPlace, IsGrouping, LockFree, Advanced, MustWrap;
    match step
    case Pop(t) => ThreadInPlace(c, s, s', t, s'.threads[t]);
    case AddToBatch(t, groups) => ThreadInPlace(c, s, s', t, s'.threads[t]);
    case PublishPoint(t, success) => PublishPointInPlace(c, s, t, success, s');
    case StartFlush(t, groups) =>
      FlushersBatchOnly(c, s);
      ThreadInPlace(c, s, s', t, s'.threads[t]);
    case PublishGroup(t, success) => PublishGroupInPlace(c, s, t, success, s');
    case StoreZero(t) => ThreadInPlace(c, s, s', t, s'.threads[t]);
    case EndFlush(t) => ThreadInPlace(c, s, s', t, s'.threads[t]);
    case _ => SameInPlace(c, s, s');
  }

  lemma FlushersBatchOnly(c: Config, s: State)
    requires InPlace(c, s) && s.batch != []
    ensures c.batching
  {
    hide Fits;
  }

  lemma PublishPointInPlace(c: Config, s: State, t: nat, success: bool, s': State)
    requires InPlace(c, s) && PublishesPoint(c, s, t, success, s')
    ensures InPlace(c, s')
  {
    hide InPlace;
    ThreadInPlace(c, s, s', t, s'.threads[t]);
  }

  lemma PublishGroupInPlace(c: Config, s: State, t: nat, success: bool, s': State)
    requires InPlace(c, s) && PublishesGroup(c, s, t, success, s')
    ensures InPlace(c, s')
  {
    FlushersBatch(c, s, t);
    hide InPlace;
    ThreadInPlace(c, s, s', t, s'.threads[t]);
  }

  /** A thread about to publish is the only one that could be between the operations. */
  lemma PublisherIsAlone(c: Config, s: State, t: nat)
    requires Serial(c) && InPlace(c, s) && OneLockHolder(s)
    requires t < |s.threads| && if c.batching then s.threads[t].Flushing? else s.threads[t].Holding?
    ensures NoneWrapping(s)
  {
    forall u | 0 <= u < |s.threads|
      ensures !s.threads[u].Wrapping()
    {
      assert u < t || u == t || t < u;
    }
  }

  lemma PublishCounts(s: State, success: bool, s': State, t: nat, wrap: Thread, go: Thread)
    requires t < |s.threads| && NoneWrapping(s) && Counts(s) && wrap.Wrapping() && !go.Wrapping()
    requires s'.threads == s.threads[t := if MustWrap(s, success) then wrap else go]
    requires s'.sequence == Advanced(s, success).sequence && s'.published == Advanced(s, success).published
    ensures Counts(s')
  {
    if MustWrap(s, success) {
      assert s'.threads[t] == wrap;
    }
  }

  lemma StoreCounts(s: State, t: nat, s': State)
    requires StoresZero(s, t, s') && Counts(s)
    ensures Counts(s')
  {
    assert !NoneWrapping(s);
  }

  lemma SameWrapping(s: State, s': State, t: nat, thread: Thread)
    requires t < |s.threads| && !s.threads[t].Wrapping() && !thread.Wrapping()
    requires s'.threads == s.threads[t := thread]
    ensures NoneWrapping(s') == NoneWrapping(s)
  {
    forall u | 0 <= u < |s.threads|
      ensures s'.threads[u].Wrapping() == s.threads[u].Wrapping()
    {
    }
  }

  lemma CountsKept(s: State, s': State, t: nat, thread: Thread)
    requires Counts(s) && t < |s.threads| && !s.threads[t].Wrapping() && !thread.Wrapping()
    requires s'.threads == s.threads[t := thread] && s'.sequence == s.sequence && s'.published == s.published
    ensures Counts(s')
  {
    SameWrapping(s, s', t, thread);
    hide NoneWrapping;
  }

  lemma CountsSame(s: State, s': State)
    requires Counts(s) && s'.threads == s.threads
    requires (s'.sequence == s.sequence && s'.published == s.published) || (s'.sequence == 0 && s'.published == 0)
    ensures Counts(s')
  {
    SameWrappingAll(s, s');
    hide NoneWrapping;
  }

  lemma PublishPointCounts(c: Config, s: State, t: nat, success: bool, s': State)
    requires Serial(c) && InPlace(c, s) && OneLockHolder(s) && Counts(s) && PublishesPoint(c, s, t, success, s')
    ensures Counts(s')
  {
    hide InPlace, OneLockHolder, NoneWrapping, Counts;
    PublisherIsAlone(c, s, t);
    PublishCounts(s, success, s', t, WrappingSingle, Idle);
  }

  lemma PublishGroupCounts(c: Config, s: State, t: nat, success: bool, s': State)
    requires Serial(c) && InPlace(c, s) && OneLockHolder(s) && Counts(s) && PublishesGroup(c, s, t, success, s')
    ensures Counts(s')
  {
    hide InPlace, OneLockHolder, NoneWrapping, Counts;
    FlushersBatch(c, s, t);
    PublisherIsAlone(c, s, t);
    var rest := s.threads[t].todo[1..];
    PublishCounts(s, success, s', t, WrappingFlush(rest), Flushing(rest));
  }

  lemma NextCounts(c: Config, s: State, step: Step, s': State)
    requires Serial(c) && InPlace(c, s) && OneLockHolder(s) && Counts(s) && Next(c, s, step, s')
    ensures Counts(s')
  {
    hide IsGrouping, LockFree, InPlace, OneLockHolder, Counts, PublishesPoint, PublishesGroup, StoresZero;
    match step
    case PublishPoint(t, success) => PublishPointCounts(c, s, t, success, s');
    case PublishGroup(t, success) => PublishGroupCounts(c, s, t, success, s');
    case StoreZero(t) => StoreCounts(s, t, s');
    case Pop(t) => CountsKept(s, s', t, s'.threads[t]);
    case AddToBatch(t, groups) => CountsKept(s, s', t, s'.threads[t]);
    case StartFlush(t, groups) => CountsKept(s, s', t, s'.threads[t]);
    case EndFlush(t) => CountsKept(s, s', t, s'.threads[t]);
    case _ => CountsSame(s, s');
  }

  lemma SameWrappingAll(s: State, s': State)
    requires s'.threads == s.threads
    ensures NoneWrapping(s') == NoneWrapping(s)
  {
  }

  lemma FlushersBatch(c: Config, s: State, t: nat)
    requires InPlace(c, s) && t < |s.threads| && s.threads[t].Flushing?
    ensures c.batching
  {
  }

  lemma LockFreeIsQuiet(c: Config, s: State)
    requires c.batching && InPlace(c, s) && LockFree(s)
    ensures NoneWrapping(s)
  {
  }

  /** With one publishing thread at a time the sequence number is exact: whenever no
      thread is between its two operations it is the number of successful publishes since
      the last rebirth, modulo 256. In batched mode that is whenever the lock is free. */
  lemma {:induction false} SequenceIsExact(c: Config, states: seq<State>, steps: seq<Step>, i: nat)
    requires Serial(c) && IsRun(c, states, steps) && i < |states|
    ensures InPlace(c, states[i]) && Counts(states[i])
    ensures NoneWrapping(states[i]) || (c.batching && LockFree(states[i]))
            ==> states[i].sequence == states[i].published % 256
    decreases i
  {
    hide Next, Inv, InPlace, LockFree, OneLockHolder, NoneWrapping;
    if i == 0 {
      InitCounts(c, states[0]);
    } else {
      hide Init, Counts;
      SequenceIsExact(c, states, steps, i - 1);
      RunInv(c, states, steps, i - 1);
      HoldsOneLock(c, states[i - 1]);
      NextInPlace(c, states[i - 1], steps[i - 1], states[i]);
      NextCounts(c, states[i - 1], steps[i - 1], states[i]);
    }
    ReadExactly(c, states[i]);
  }

  /** The successful publishes since the last rebirth. */
  function SinceRebirth(steps: seq<Step>): nat {
    if steps == [] then 0
    else
      var before := SinceRebirth(steps[..|steps| - 1]);
      match steps[|steps| - 1]
      case PublishPoint(_, success) => if success then before + 1 else before
      case PublishGroup(_, success) => if success then before + 1 else before
      case Rebirth => 0
      case _ => before
  }

  lemma NextPublished(c: Config, s: State, step: Step, s': State)
    requires Next(c, s, step, s')
    ensures s'.published == match step
                            case PublishPoint(_, success) => if success then s.published + 1 else s.published
                            case PublishGroup(_, success) => if success then s.published + 1 else s.published
                            case Rebirth => 0
                            case _ => s.published
    ensures step.Rebirth? ==> s'.sequence == 0
  {
    hide IsGrouping, LockFree, MustWrap;
  }

  /** So in any run the number is, when no thread is between its two operations, that of the
      successful publishes since the last rebirth, modulo 256. */
  lemma {:induction false} SequenceIsHistory(c: Config, states: seq<State>, steps: seq<Step>, i: nat)
    requires IsRun(c, states, steps) && i <= |steps|
    ensures states[i].published == SinceRebirth(steps[..i])
    ensures Serial(c) && NoneWrapping(states[i]) ==> states[i].sequence == SinceRebirth(steps[..i]) % 256
    ensures i > 0 && steps[i - 1].Rebirth? ==> states[i].sequence == 0
    decreases i
  {
    hide Next, InPlace, Counts, NoneWrapping, LockFree;
    if i > 0 {
      SequenceIsHistory(c, states, steps, i - 1);
      NextPublished(c, states[i - 1], steps[i - 1], states[i]);
      assert steps[..i][..i - 1] == steps[..i - 1];
    }
    if Serial(c) {
      SequenceIsExact(c, states, steps, i);
    }
  }

  /** A running sink whose workers are idle is as before once it has been stopped and started. */
  lemma RestartsAsBefore(c: Config, s: State)
    requires s.running && forall t | 0 <= t < c.workers && t < |s.threads| :: s.threads[t] == Idle
    ensures Next(c, s, Stop, s.(running := false)) && Next(c, s.(running := false), Restart, s)
  {
  }

  lemma ReadExactly(c: Config, s: State)
    requires InPlace(c, s) && Counts(s)
    ensures NoneWrapping(s) || (c.batching && LockFree(s)) ==> s.sequence == s.published % 256
  {
    hide InPlace, LockFree, NoneWrapping;
    if c.batching && LockFree(s) {
      LockFreeIsQuiet(c, s);
    }
  }

  lemma InitCounts(c: Config, s: State)
    requires Init(c, s)
    ensures InPlace(c, s) && Counts(s)
  {
  }

  lemma HoldsOneLock(c: Config, s: State)
    requires Inv(c, s)
    ensures OneLockHolder(s)
  {
  }

  // ------------------------------------------------------- the bound is reached

  /** n publishes, of which those after the 255th are each by a worker of its own that
      has not yet stored zero. */
  ghost function Overshot(c: Config, p: Point, n: nat): State
    requires n <= 255 + c.threads
  {
    State(true, [], [], seq(c.threads, t => if t < n - 255 then WrappingSingle else Idle), n,
          seq(n, _ => p), seq(n, _ => p), n)
  }

  /** The n-th publish: written, popped, and published by its worker. */
  lemma OneMorePublish(c: Config, p: Point, n: nat) returns (a: State, b: State, t: nat)
    requires !c.batching && 1 <= c.workers <= c.threads && c.queueSize >= 1 && n < 255 + c.workers
    ensures Next(c, Overshot(c, p, n), Write(p), a) && Next(c, a, Pop(t), b)
    ensures Next(c, b, PublishPoint(t, true), Overshot(c, p, n + 1))
  {
    t := if n < 255 then 0 else n - 255;
    var s, s' := Overshot(c, p, n), Overshot(c, p, n + 1);
    a := s.(queue := [p], accepted := s.accepted + [p]);
    b := At(a, t, Holding(p)).(queue := []);
    assert [p][1..] == [] && s.queue + [p] == [p];
    assert s'.threads == s.threads[t := Holding(p)][t := if n >= 255 then WrappingSingle else Idle];
    assert s'.accepted == s.accepted + [p];
  }

  lemma Extend(c: Config, states: seq<State>, steps: seq<Step>, step: Step, s: State)
    returns (states': seq<State>, steps': seq<Step>)
    requires IsRun(c, states, steps) && Next(c, states[|steps|], step, s)
    ensures IsRun(c, states', steps') && states'[|steps'|] == s
    ensures states' == states + [s] && steps' == steps + [step]
  {
    hide Next, Init;
    states', steps' := states + [s], steps + [step];
    forall i | 0 <= i < |steps'|
      ensures Next(c, states'[i], steps'[i], states'[i + 1])
    {
      if i < |steps| {
        assert states'[i] == states[i] && steps'[i] == steps[i] && states'[i + 1] == states[i + 1];
      }
    }
  }

  lemma {:induction false} Overshoot(c: Config, p: Point, n: nat) returns (states: seq<State>, steps: seq<Step>)
    requires !c.batching && 1 <= c.workers <= c.threads && c.queueSize >= 1 && n <= 255 + c.workers
    ensures IsRun(c, states, steps) && states[|steps|] == Overshot(c, p, n)
    decreases n
  {
    if n == 0 {
      states, steps := [Overshot(c, p, 0)], [];
      assert seq(0, _ => p) == [];
    } else {
      states, steps := Overshoot(c, p, n - 1);
      var a, b, t := OneMorePublish(c, p, n - 1);
      hide Next, Init, Overshot;
      states, steps := Extend(c, states, steps, Write(p), a);
      states, steps := Extend(c, states, steps, Pop(t), b);
      states, steps := Extend(c, states, steps, PublishPoint(t, true), Overshot(c, p, n));
    }
  }

  /** The bound of RunInv cannot be improved: with direct publishing some run brings the
      number to 255 plus the number of workers, past the 255 the protocol allows. */
  lemma OvershootReached(c: Config)
    requires !c.batching && 1 <= c.workers <= c.threads && c.queueSize >= 1
    ensures exists states: seq<State>, steps: seq<Step> ::
              IsRun(c, states, steps) && states[|steps|].sequence == 255 + c.workers
  {
    var states, steps := Overshoot(c, Point("", 0), 255 + c.workers);
    hide IsRun;
    assert states[|steps|].sequence == 255 + c.workers;
  }

  predicate Publishing(step: Step) {
    step.PublishPoint? || step.PublishGroup?
  }

  /** In every run every publish is made with a number of at most 255, as the protocol
      wants it. */
  ghost predicate PublishesInRange(c: Config) {
    forall states: seq<State>, steps: seq<Step>, i: nat
      | IsRun(c, states, steps) && i < |steps| && Publishing(steps[i]) :: states[i].sequence <= 255
  }

  lemma SerialPublishesInRange(c: Config, states: seq<State>, steps: seq<Step>, i: nat)
    requires Serial(c) && IsRun(c, states, steps) && i < |steps| && Publishing(steps[i])
    ensures states[i].sequence <= 255
  {
    SequenceIsExact(c, states, steps, i);
    RunInv(c, states, steps, i);
    HoldsOneLock(c, states[i]);
    PublisherFound(c, states[i], steps[i], states[i + 1]);
  }

  lemma PublisherFound(c: Config, s: State, step: Step, s': State)
    requires Serial(c) && InPlace(c, s) && OneLockHolder(s) && Publishing(step) && Next(c, s, step, s')
    ensures NoneWrapping(s)
  {
    hide InPlace, OneLockHolder, NoneWrapping, Advanced, MustWrap;
    match step
    case PublishPoint(t, _) => PublisherIsAlone(c, s, t);
    case PublishGroup(t, _) =>
      FlushersBatch(c, s, t);
      PublisherIsAlone(c, s, t);
  }

  /** A second worker publishes while the first has yet to store zero. */
  lemma SecondWorkerOvershoots(c: Config) returns (states: seq<State>, steps: seq<Step>)
    requires !Serial(c) && c.workers <= c.threads && c.queueSize >= 1
    ensures IsRun(c, states, steps) && steps != [] && Publishing(steps[|steps| - 1])
    ensures states[|steps| - 1].sequence > 255
  {
    var p := Point("", 0);
    states, steps := Overshoot(c, p, 256);
    var a, b, t := OneMorePublish(c, p, 256);
    SameNumber(c, Overshot(c, p, 256), p, a, t, b);
    states, steps := Extend(c, states, steps, Write(p), a);
    states, steps := Extend(c, states, steps, Pop(t), b);
    var before := states;
    states, steps := Extend(c, states, steps, PublishPoint(t, true), Overshot(c, p, 257));
  }

  lemma SameNumber(c: Config, s: State, p: Point, a: State, t: nat, b: State)
    requires Next(c, s, Write(p), a) && Next(c, a, Pop(t), b)
    ensures b.sequence == s.sequence
  {
  }

  /** Main result: publishes are in range in every run if and only if publishing is one
      thread at a time, that is in batched mode or with at most one worker. */
  lemma InRangeExactlyIfSerial(c: Config)
    requires c.workers <= c.threads && c.queueSize >= 1
    ensures PublishesInRange(c) <==> Serial(c)
  {
    hide IsRun;
    if Serial(c) {
      forall states: seq<State>, steps: seq<Step>, i: nat
        | IsRun(c, states, steps) && i < |steps| && Publishing(steps[i])
        ensures |states| == |steps| + 1 && states[i].sequence <= 255
      {
        RunLength(c, states, steps);
        SerialPublishesInRange(c, states, steps, i);
      }
    } else {
      var states, steps := SecondWorkerOvershoots(c);
      assert Publishing(steps[|steps| - 1]);
    }
  }

  lemma RunLength(c: Config, states: seq<State>, steps: seq<Step>)
    requires IsRun(c, states, steps)
    ensures |states| == |steps| + 1
  {
  }
}
