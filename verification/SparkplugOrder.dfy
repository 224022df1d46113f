/** The order in which the Sparkplug sink publishes: what a batch holds, in which order a
    flush hands it on, and how that relates to the order in which write took the points. */
module SparkplugOrder {
  import opened DataPoints
  import opened SparkplugSink

  // -------------------------------------------------------------- the batch in order

  /** The point a step adds to the batch. */
  ghost function AddedBy(s: State, step: Step): seq<Point> {
    match step
    case AddToBatch(t, _) => if t < |s.threads| && s.threads[t].Holding? then [s.threads[t].point] else []
    case _ => []
  }

  /** The points of the AddToBatch steps since the last EndFlush, in the order of the steps. */
  ghost function Collected(states: seq<State>, steps: seq<Step>): seq<Point>
    requires |states| == |steps| + 1
    decreases |steps|
  {
    if steps == [] then []
    else
      var n := |steps| - 1;
      if steps[n].EndFlush? then [] else Collected(states[..n + 1], steps[..n]) + AddedBy(states[n], steps[n])
  }

  lemma NextBatch(c: Config, s: State, step: Step, s': State)
    requires Next(c, s, step, s')
    ensures s'.batch == if step.EndFlush? then [] else s.batch + AddedBy(s, step)
  {
    hide IsGrouping, LockFree, Advanced, MustWrap;
    assert s.batch + [] == s.batch;
    match step
    case PublishPoint(t, success) => PublishKeepsBatch(s, success);
    case PublishGroup(t, success) => PublishKeepsBatch(s, success);
    case _ =>
  }

  lemma PublishKeepsBatch(s: State, success: bool)
    ensures Advanced(s, success).batch == s.batch
  {
  }

  /** Main result on the batch: in every state of every run the batch is what was added to
      it since the last flush ended, in the order of adding. */
  lemma {:induction false} BatchIsCollected(c: Config, states: seq<State>, steps: seq<Step>, i: nat)
    requires IsRun(c, states, steps) && i <= |steps|
    ensures states[i].batch == Collected(states[..i + 1], steps[..i])
    decreases i
  {
    hide Next;
    if i > 0 {
      BatchIsCollected(c, states, steps, i - 1);
      NextBatch(c, states[i - 1], steps[i - 1], states[i]);
      assert states[..i + 1][..i] == states[..i] && steps[..i][..i - 1] == steps[..i - 1];
    }
  }

  // ------------------------------------------------------------ the groups in order

  /** ks are ascending positions of b that hold a. */
  ghost predicate Picks(ks: seq<nat>, a: seq<Point>, b: seq<Point>) {
    && |ks| == |a| && (forall j, k | 0 <= j < k < |ks| :: ks[j] < ks[k])
    && forall j | 0 <= j < |ks| :: ks[j] < |b| && b[ks[j]] == a[j]
  }

  lemma {:induction false} SharePicks(batch: seq<Point>, tags: seq<Device>, d: Device) returns (ks: seq<nat>)
    requires |batch| == |tags|
    ensures Picks(ks, Share(batch, tags, d), batch)
    ensures forall i: nat | i < |batch| :: tags[i] == d <==> i in ks
    decreases |batch|
  {
    ks := [];
    if batch != [] {
      var n := |batch| - 1;
      var before := SharePicks(batch[..n], tags[..n], d);
      ks := before + if tags[n] == d then [n] else [];
      LastShare(batch, tags, d);
      hide Share;
      assert forall j | 0 <= j < |before| :: before[j] in before;
      forall i: nat | i < |batch|
        ensures tags[i] == d <==> i in ks
      {
        assert i < n ==> tags[..n][i] == tags[i];
      }
    }
  }

  /** The group has all points of its device, in the order of the batch. */
  ghost predicate PicksAll(g: Group, batch: seq<Point>, tags: seq<Device>)
    requires |tags| == |batch|
  {
    exists ks: seq<nat> ::
      Picks(ks, g.points, batch) && forall i: nat | i < |batch| :: tags[i] == g.device <==> i in ks
  }

  /** The points of a batch by device, each group in the order of the batch. */
  ghost predicate InBatchOrder(groups: seq<Group>, batch: seq<Point>, tags: seq<Device>) {
    && |tags| == |batch|
    && forall g | g in groups :: PicksAll(g, batch, tags)
  }

  /** Each group of a flush has the points of its device in the order of the batch. */
  lemma GroupsInOrder(groups: seq<Group>, batch: seq<Point>) returns (tags: seq<Device>)
    requires IsGrouping(groups, batch)
    ensures InBatchOrder(groups, batch, tags)
  {
    var byDevice;
    tags, byDevice :| |tags| == |batch| && IsByDevice(byDevice, batch, tags) && Lists(groups, byDevice);
    forall g | g in groups
      ensures PicksAll(g, batch, tags)
    {
      var ks := SharePicks(batch, tags, g.device);
      hide Share, Picks;
    }
  }

  lemma FlushTaken(c: Config, s: State, step: Step, s': State, t: nat)
    requires Next(c, s, step, s') && t < |s.threads|
    requires t < |s'.threads| && s'.threads[t].Flushing? && !s.threads[t].HasLock()
    ensures IsGrouping(s'.threads[t].todo, s'.batch)
  {
    hide IsGrouping, LockFree, MustWrap;
  }

  /** Whenever a thread begins a flush, it is with everything collected, divided by device
      and in the order of adding. */
  lemma FlushInOrder(c: Config, states: seq<State>, steps: seq<Step>, i: nat, t: nat) returns (tags: seq<Device>)
    requires IsRun(c, states, steps) && i < |steps| && t < |states[i].threads| && t < |states[i + 1].threads|
    requires states[i + 1].threads[t].Flushing? && !states[i].threads[t].HasLock()
    ensures InBatchOrder(states[i + 1].threads[t].todo, Collected(states[..i + 2], steps[..i + 1]), tags)
  {
    hide Next, IsGrouping;
    FlushTaken(c, states[i], steps[i], states[i + 1], t);
    BatchIsCollected(c, states, steps, i + 1);
    tags := GroupsInOrder(states[i + 1].threads[t].todo, states[i + 1].batch);
  }

  // ------------------------------------------------------- from write to publish

  /** The points of one device, in order. */
  ghost function Of(points: seq<Point>, device: Point -> Device, d: Device): seq<Point> {
    if points == [] then []
    else
      var n := |points| - 1;
      Of(points[..n], device, d) + if device(points[n]) == d then [points[n]] else []
  }

  lemma {:induction false} OfSplit(a: seq<Point>, b: seq<Point>, device: Point -> Device, d: Device)
    ensures Of(a + b, device, d) == Of(a, device, d) + Of(b, device, d)
    decreases |b|
  {
    if b == [] {
      assert a + b == a;
    } else {
      var n, x := |b| - 1, if device(b[|b| - 1]) == d then [b[|b| - 1]] else [];
      OfSplit(a, b[..n], device, d);
      assert (a + b)[..|a + b| - 1] == a + b[..n] && (a + b)[|a + b| - 1] == b[n];
      var u, v := Of(a, device, d), Of(b[..n], device, d);
      assert u + (v + x) == u + v + x;
    }
  }

  ghost function Tags(points: seq<Point>, device: Point -> Device): (tags: seq<Device>)
    ensures |tags| == |points| && forall i | 0 <= i < |points| :: tags[i] == device(points[i])
  {
    seq(|points|, i requires 0 <= i < |points| => device(points[i]))
  }

  /** The groups of a flush in which the device of each point is the one of its address. */
  ghost predicate GroupedBy(device: Point -> Device, groups: seq<Group>, batch: seq<Point>) {
    exists byDevice :: IsByDevice(byDevice, batch, Tags(batch, device)) && Lists(groups, byDevice)
  }

  lemma {:induction false} ShareIsOf(batch: seq<Point>, device: Point -> Device, d: Device)
    ensures Share(batch, Tags(batch, device), d) == Of(batch, device, d)
    decreases |batch|
  {
    if batch != [] {
      var n := |batch| - 1;
      ShareIsOf(batch[..n], device, d);
      LastShare(batch, Tags(batch, device), d);
      hide Share;
      assert Tags(batch, device)[..n] == Tags(batch[..n], device);
    }
  }

  /** What is still to be published for a device. */
  ghost function TodoOf(groups: seq<Group>, d: Device): seq<Point> {
    if groups == [] then []
    else (if groups[0].device == d then groups[0].points else []) + TodoOf(groups[1..], d)
  }

  /** Every group holds points of its device only. */
  ghost predicate Sorted(device: Point -> Device, groups: seq<Group>) {
    forall g, p | g in groups && p in g.points :: device(p) == g.device
  }

  lemma {:induction false} TodoNowhere(groups: seq<Group>, d: Device)
    requires forall g | g in groups :: g.device != d
    ensures TodoOf(groups, d) == []
    decreases |groups|
  {
    if groups != [] {
      TodoNowhere(groups[1..], d);
    }
  }

  lemma {:induction false} TodoInOneGroup(groups: seq<Group>, i: nat)
    requires i < |groups| && forall j, k | 0 <= j < k < |groups| :: groups[j].device != groups[k].device
    ensures TodoOf(groups, groups[i].device) == groups[i].points
    decreases |groups|
  {
    if i == 0 {
      forall g | g in groups[1..]
        ensures g.device != groups[0].device
      {
        var j :| 0 <= j < |groups| - 1 && groups[1..][j] == g;
        assert groups[j + 1] == g;
      }
      TodoNowhere(groups[1..], groups[0].device);
    } else {
      TodoInOneGroup(groups[1..], i - 1);
    }
  }

  lemma {:induction false} OfDevice(points: seq<Point>, device: Point -> Device, d: Device)
    ensures (forall p | p in points :: device(p) == d) ==> Of(points, device, d) == points
    ensures (forall p | p in points :: device(p) != d) ==> Of(points, device, d) == []
    ensures forall p | p in Of(points, device, d) :: device(p) == d
    decreases |points|
  {
    if points != [] {
      OfDevice(points[..|points| - 1], device, d);
    }
  }

  /** A flush takes over the batch device by device. */
  lemma GroupsTakeOver(device: Point -> Device, groups: seq<Group>, batch: seq<Point>, d: Device)
    requires GroupedBy(device, groups, batch)
    ensures TodoOf(groups, d) == Of(batch, device, d) && Sorted(device, groups)
  {
    var byDevice :| IsByDevice(byDevice, batch, Tags(batch, device)) && Lists(groups, byDevice);
    hide TodoOf, Of, Share;
    forall g, p | g in groups && p in g.points
      ensures device(p) == g.device
    {
      ShareIsOf(batch, device, g.device);
      OfDevice(batch, device, g.device);
    }
    ShareIsOf(batch, device, d);
    if i :| 0 <= i < |groups| && groups[i].device == d {
      TodoInOneGroup(groups, i);
    } else {
      NoShare(batch, Tags(batch, device), d);
      TodoNowhere(groups, d);
    }
  }

  ghost function TodoPart(thread: Thread, d: Device): seq<Point> {
    if thread.HasLock() then TodoOf(thread.todo, d) else []
  }

  ghost function Todo(threads: seq<Thread>, d: Device): seq<Point> {
    if threads == [] then [] else TodoPart(threads[0], d) + Todo(threads[1..], d)
  }

  /** The lock holder's groups are all that is still to be published. */
  lemma {:induction false} TodoOfHolder(threads: seq<Thread>, t: nat, d: Device)
    requires t < |threads| && forall u | 0 <= u < |threads| && u != t :: !threads[u].HasLock()
    ensures Todo(threads, d) == TodoPart(threads[t], d)
    decreases |threads|
  {
    if t == 0 {
      TodoOfNobody(threads[1..], d);
    } else {
      TodoOfHolder(threads[1..], t - 1, d);
    }
  }

  lemma {:induction false} TodoOfNobody(threads: seq<Thread>, d: Device)
    requires forall u | 0 <= u < |threads| :: !threads[u].HasLock()
    ensures Todo(threads, d) == []
    decreases |threads|
  {
    if threads != [] {
      TodoOfNobody(threads[1..], d);
    }
  }

  lemma {:induction false} TodoKept(threads: seq<Thread>, t: nat, thread: Thread, d: Device)
    requires t < |threads| && TodoPart(thread, d) == TodoPart(threads[t], d)
    ensures Todo(threads[t := thread], d) == Todo(threads, d)
    decreases |threads|
  {
    hide TodoPart;
    var u := threads[t := thread];
    if t == 0 {
      assert u[1..] == threads[1..];
    } else {
      assert u[1..] == threads[1..][t - 1 := thread];
      TodoKept(threads[1..], t - 1, thread, d);
    }
  }

  ghost function PendingOf(s: State, device: Point -> Device, d: Device): seq<Point> {
    if LockFree(s) then Of(s.batch, device, d) else []
  }

  /** What the only worker has popped. */
  ghost function HandOf(s: State, device: Point -> Device, d: Device): seq<Point> {
    if s.threads != [] && s.threads[0].Holding? then Of([s.threads[0].point], device, d) else []
  }

  /** Where the points of a device are. */
  datatype Line = Line(accepted: seq<Point>, handed: seq<Point>, todo: seq<Point>, pending: seq<Point>,
                       hand: seq<Point>, queue: seq<Point>)

  ghost function LineOf(s: State, device: Point -> Device, d: Device): Line {
    Line(Of(s.accepted, device, d), Of(s.handed, device, d), Todo(s.threads, d), PendingOf(s, device, d),
         HandOf(s, device, d), Of(s.queue, device, d))
  }

  /** In the order of write: what was handed to publish, what a flush is about to hand on,
      the batch, the worker's point, and the queue. */
  ghost predicate InOrder(l: Line) {
    l.accepted == l.handed + (l.todo + (l.pending + (l.hand + l.queue)))
  }

  /** No thread but the first holds a point, and a flusher's groups are sorted. */
  ghost predicate OneWorker(s: State, device: Point -> Device) {
    && (forall t | 0 < t < |s.threads| :: !s.threads[t].Holding?)
    && forall t | 0 <= t < |s.threads| && s.threads[t].HasLock() :: Sorted(device, s.threads[t].todo)
  }

  /** A step divides what it flushes by device. */
  ghost predicate Divides(device: Point -> Device, s: State, step: Step, s': State) {
    match step
    case AddToBatch(t, groups) =>
      t < |s'.threads| && s'.threads[t].Flushing? ==> GroupedBy(device, groups, s'.batch)
    case StartFlush(_, groups) => GroupedBy(device, groups, s.batch)
    case _ => true
  }

  lemma OfOne(p: Point, device: Point -> Device, d: Device)
    ensures Of([p], device, d) == if device(p) == d then [p] else []
  {
    assert [p][..0] == [];
  }

  lemma WriteOrder(l: Line, x: seq<Point>)
    requires InOrder(l)
    ensures InOrder(l.(accepted := l.accepted + x, queue := l.queue + x))
  {
    var hq := l.hand + l.queue;
    assert l.hand + (l.queue + x) == hq + x;
    assert l.pending + (hq + x) == l.pending + hq + x;
    assert l.todo + (l.pending + hq + x) == l.todo + (l.pending + hq) + x;
  }

  lemma PopOrder(l: Line, x: seq<Point>, rest: seq<Point>)
    requires InOrder(l) && l.hand == [] && l.queue == x + rest
    ensures InOrder(l.(hand := x, queue := rest))
  {
    assert l.hand + l.queue == x + rest;
  }

  /** The worker's point goes to the end of the batch. */
  lemma AddOrder(l: Line)
    requires InOrder(l)
    ensures InOrder(l.(pending := l.pending + l.hand, hand := []))
  {
    assert l.pending + l.hand + ([] + l.queue) == l.pending + (l.hand + l.queue);
  }

  /** The batch becomes what is to be published. */
  lemma FlushOrder(l: Line)
    requires InOrder(l) && l.todo == []
    ensures InOrder(l.(todo := l.pending, pending := []))
  {
    var hq := l.hand + l.queue;
    assert l.pending + ([] + hq) == [] + (l.pending + hq);
  }

  lemma PublishOrder(l: Line, x: seq<Point>, rest: seq<Point>)
    requires InOrder(l) && l.todo == x + rest
    ensures InOrder(l.(handed := l.handed + x, todo := rest))
  {
    var tail := l.pending + (l.hand + l.queue);
    assert l.handed + (x + rest + tail) == l.handed + x + (rest + tail);
  }

  /** Direct publishing. */
  lemma DirectOrder(l: Line)
    requires InOrder(l) && l.todo == [] && l.pending == []
    ensures InOrder(l.(handed := l.handed + l.hand, hand := []))
  {
    assert l.handed + ([] + ([] + (l.hand + l.queue))) == l.handed + l.hand + ([] + ([] + ([] + l.queue)));
  }

  // --------------------------------------------------------------- step by step

  lemma WriteLine(c: Config, s: State, p: Point, s': State, device: Point -> Device, d: Device)
    requires InOrder(LineOf(s, device, d)) && Writes(c, s, p, s')
    ensures InOrder(LineOf(s', device, d))
  {
    hide InOrder;
    OfSplit(s.accepted, [p], device, d);
    OfSplit(s.queue, [p], device, d);
    SameThreads(s, s');
    hide Of, Todo, LockFree;
    WriteOrder(LineOf(s, device, d), Of([p], device, d));
  }

  lemma PopLine(c: Config, s: State, t: nat, s': State, device: Point -> Device, d: Device)
    requires c.workers <= 1 && InOrder(LineOf(s, device, d)) && Pops(c, s, t, s')
    ensures InOrder(LineOf(s', device, d))
  {
    hide InOrder;
    var x, rest := [s.queue[0]], s.queue[1..];
    assert s.queue == x + rest;
    OfSplit(x, rest, device, d);
    SameLock(s, s', t, s'.threads[t]);
    TodoKept(s.threads, t, s'.threads[t], d);
    hide Of, Todo, LockFree;
    PopOrder(LineOf(s, device, d), Of(x, device, d), Of(rest, device, d));
  }

  /** Facts about the lock that the steps need. */
  lemma NobodyFlushes(s: State, d: Device)
    requires LockFree(s)
    ensures Todo(s.threads, d) == []
  {
    TodoOfNobody(s.threads, d);
  }

  lemma FlusherAlone(s: State, t: nat, d: Device)
    requires OneLockHolder(s) && t < |s.threads| && s.threads[t].HasLock()
    ensures Todo(s.threads, d) == TodoOf(s.threads[t].todo, d) && !LockFree(s)
  {
    forall u | 0 <= u < |s.threads| && u != t
      ensures !s.threads[u].HasLock()
    {
      assert u < t || t < u;
    }
    TodoOfHolder(s.threads, t, d);
  }

  lemma AddLine(c: Config, s: State, t: nat, groups: seq<Group>, s': State, device: Point -> Device, d: Device)
    requires InOrder(LineOf(s, device, d)) && Adds(c, s, t, groups, s') && OneWorker(s, device)
    requires OneLockHolder(s') && Divides(device, s, AddToBatch(t, groups), s')
    ensures InOrder(LineOf(s', device, d))
  {
    hide InOrder, IsGrouping;
    var p := s.threads[t].point;
    var l := LineOf(s, device, d);
    assert t == 0;
    OfSplit(s.batch, [p], device, d);
    NobodyFlushes(s, d);
    AddOrder(l);
    if s'.threads[t].Flushing? {
      GroupsTakeOver(device, groups, s'.batch, d);
      FlusherAlone(s', t, d);
      hide Of, Todo, TodoOf, LockFree, GroupedBy, OneLockHolder;
      FlushOrder(l.(pending := l.pending + l.hand, hand := []));
    } else {
      SameLock(s, s', t, s'.threads[t]);
      NobodyFlushes(s', d);
      hide Of, Todo, LockFree;
    }
  }

  lemma DirectLine(c: Config, s: State, t: nat, success: bool, s': State, device: Point -> Device, d: Device)
    requires InOrder(LineOf(s, device, d)) && PublishesPoint(c, s, t, success, s') && OneWorker(s, device)
    requires InPlace(c, s)
    ensures InOrder(LineOf(s', device, d))
  {
    hide InOrder;
    var p := s.threads[t].point;
    assert t == 0;
    OfSplit(s.handed, [p], device, d);
    SameLock(s, s', t, s'.threads[t]);
    assert LockFree(s);
    NobodyFlushes(s, d);
    NobodyFlushes(s', d);
    NothingOf(s, device, d);
    hide Of, Todo, LockFree, InPlace;
    DirectOrder(LineOf(s, device, d));
  }

  lemma NothingOf(s: State, device: Point -> Device, d: Device)
    requires s.batch == []
    ensures PendingOf(s, device, d) == []
  {
  }

  lemma StartFlushLine(c: Config, s: State, t: nat, groups: seq<Group>, s': State, device: Point -> Device, d: Device)
    requires InOrder(LineOf(s, device, d)) && StartsFlush(c, s, t, groups, s') && c.workers <= 1
    requires OneLockHolder(s') && GroupedBy(device, groups, s.batch)
    ensures InOrder(LineOf(s', device, d))
  {
    hide InOrder, IsGrouping, GroupedBy, OneLockHolder, Of, Todo, TodoOf, LockFree, Sorted;
    NobodyFlushes(s, d);
    GroupsTakeOver(device, groups, s.batch, d);
    FlusherAlone(s', t, d);
    HandKept(s, s', t, groups, device, d);
    FlushOrder(LineOf(s, device, d));
  }

  lemma HandKept(s: State, s': State, t: nat, groups: seq<Group>, device: Point -> Device, d: Device)
    requires t < |s.threads| && s.threads[t] == Idle && s' == At(s, t, Flushing(groups))
    ensures HandOf(s', device, d) == HandOf(s, device, d)
  {
    hide Of;
  }

  lemma PublishGroupLine(c: Config, s: State, t: nat, success: bool, s': State, device: Point -> Device, d: Device)
    requires InOrder(LineOf(s, device, d)) && PublishesGroup(c, s, t, success, s') && OneWorker(s, device)
    requires OneLockHolder(s) && OneLockHolder(s')
    ensures InOrder(LineOf(s', device, d))
  {
    hide InOrder;
    var todo := s.threads[t].todo;
    var g := todo[0];
    FlusherAlone(s, t, d);
    FlusherAlone(s', t, d);
    OfSplit(s.handed, g.points, device, d);
    OfDevice(g.points, device, d);
    assert g in todo && s'.threads[t].todo == todo[1..];
    hide Of, Todo, LockFree, OneLockHolder, Advanced, MustWrap;
    PublishedOnce(s, success);
    PublishOrder(LineOf(s, device, d), if g.device == d then g.points else [], TodoOf(todo[1..], d));
  }

  lemma PublishedOnce(s: State, success: bool)
    ensures var a := Advanced(s, success);
      && a.accepted == s.accepted && a.handed == s.handed && a.queue == s.queue && a.threads == s.threads
      && a.batch == s.batch
  {
  }

  lemma StoreZeroLine(s: State, t: nat, s': State, device: Point -> Device, d: Device)
    requires InOrder(LineOf(s, device, d)) && StoresZero(s, t, s')
    ensures InOrder(LineOf(s', device, d))
  {
    hide InOrder;
    SameLock(s, s', t, s'.threads[t]);
    TodoKept(s.threads, t, s'.threads[t], d);
    hide Of, Todo, LockFree;
  }

  lemma EndFlushLine(s: State, t: nat, s': State, device: Point -> Device, d: Device)
    requires InOrder(LineOf(s, device, d)) && EndsFlush(s, t, s') && OneLockHolder(s)
    ensures InOrder(LineOf(s', device, d))
  {
    hide InOrder;
    FlusherAlone(s, t, d);
    TodoKept(s.threads, t, Idle, d);
    NothingOf(s', device, d);
    hide Of, Todo, LockFree, OneLockHolder;
  }

  lemma SameLine(s: State, s': State, device: Point -> Device, d: Device)
    requires s'.threads == s.threads && s'.queue == s.queue && s'.batch == s.batch
    requires s'.accepted == s.accepted && s'.handed == s.handed
    ensures LineOf(s', device, d) == LineOf(s, device, d)
  {
    SameThreads(s, s');
    hide Of, Todo, LockFree;
  }

  lemma FlushDivides(device: Point -> Device, s: State, t: nat, groups: seq<Group>, s': State)
    requires Divides(device, s, StartFlush(t, groups), s')
    ensures GroupedBy(device, groups, s.batch)
  {
    hide GroupedBy;
  }

  lemma NextLine(c: Config, s: State, step: Step, s': State, device: Point -> Device, d: Device)
    requires InOrder(LineOf(s, device, d)) && Next(c, s, step, s') && c.workers <= 1
    requires OneWorker(s, device) && InPlace(c, s) && OneLockHolder(s) && OneLockHolder(s')
    requires Divides(device, s, step, s')
    ensures InOrder(LineOf(s', device, d))
  {
    hide InOrder, LineOf, OneWorker, InPlace, OneLockHolder, Divides, IsGrouping, LockFree;
    hide Writes, Pops, Adds, PublishesPoint, StartsFlush, PublishesGroup, StoresZero, EndsFlush;
    match step
    case Write(p) => WriteLine(c, s, p, s', device, d);
    case Pop(t) => PopLine(c, s, t, s', device, d);
    case AddToBatch(t, groups) => AddLine(c, s, t, groups, s', device, d);
    case PublishPoint(t, success) => DirectLine(c, s, t, success, s', device, d);
    case StartFlush(t, groups) =>
      FlushDivides(device, s, t, groups, s');
      StartFlushLine(c, s, t, groups, s', device, d);
    case PublishGroup(t, success) => PublishGroupLine(c, s, t, success, s', device, d);
    case StoreZero(t) => StoreZeroLine(s, t, s', device, d);
    case EndFlush(t) => EndFlushLine(s, t, s', device, d);
    case _ => SameLine(s, s', device, d);
  }

  lemma WorkerKept(s: State, s': State, t: nat, thread: Thread, device: Point -> Device)
    requires OneWorker(s, device) && t < |s.threads| && s'.threads == s.threads[t := thread]
    requires thread.Holding? ==> t == 0
    requires thread.HasLock() ==> Sorted(device, thread.todo)
    ensures OneWorker(s', device)
  {
    hide Sorted;
  }

  lemma NextOneWorker(c: Config, s: State, step: Step, s': State, device: Point -> Device)
    requires c.workers <= 1 && OneWorker(s, device) && Next(c, s, step, s') && Divides(device, s, step, s')
    ensures OneWorker(s', device)
  {
    hide IsGrouping, LockFree, Advanced, MustWrap, OneWorker, GroupedBy;
    match step
    case Pop(t) => WorkerKept(s, s', t, s'.threads[t], device);
    case AddToBatch(t, groups) =>
      if s'.threads[t].Flushing? {
        GroupsTakeOver(device, groups, s'.batch, "");
      }
      WorkerKept(s, s', t, s'.threads[t], device);
    case PublishPoint(t, success) =>
      PublishedOnce(s, success);
      WorkerKept(s, s', t, s'.threads[t], device);
    case StartFlush(t, groups) =>
      GroupsTakeOver(device, groups, s.batch, "");
      WorkerKept(s, s', t, s'.threads[t], device);
    case PublishGroup(t, success) =>
      SortedTodo(s, t, device);
      PublishedOnce(s, success);
      WorkerKept(s, s', t, s'.threads[t], device);
    case StoreZero(t) =>
      SortedTodo(s, t, device);
      WorkerKept(s, s', t, s'.threads[t], device);
    case EndFlush(t) => WorkerKept(s, s', t, s'.threads[t], device);
    case _ => SameWorker(s, s', device);
  }

  lemma SortedTodo(s: State, t: nat, device: Point -> Device)
    requires OneWorker(s, device) && t < |s.threads|
    ensures s.threads[t].HasLock() ==> Sorted(device, s.threads[t].todo)
    ensures s.threads[t].HasLock() && s.threads[t].todo != [] ==> Sorted(device, s.threads[t].todo[1..])
  {
  }

  lemma SameWorker(s: State, s': State, device: Point -> Device)
    requires OneWorker(s, device) && s'.threads == s.threads
    ensures OneWorker(s', device)
  {
  }

  /** Every flush of the run divides its batch by the device of each point's address. */
  ghost predicate AllDivide(device: Point -> Device, states: seq<State>, steps: seq<Step>) {
    |states| == |steps| + 1 && forall i | 0 <= i < |steps| :: Divides(device, states[i], steps[i], states[i + 1])
  }

  lemma {:induction false} RunLine(c: Config, states: seq<State>, steps: seq<Step>, i: nat,
                                   device: Point -> Device, d: Device)
    requires IsRun(c, states, steps) && i <= |steps| && c.workers <= 1 && AllDivide(device, states, steps)
    ensures OneWorker(states[i], device) && InOrder(LineOf(states[i], device, d))
    decreases i
  {
    hide Next, Inv, InPlace, OneLockHolder, Divides, Counts, OneWorker, InOrder, LineOf;
    if i == 0 {
      InitLine(c, states[0], device, d);
    } else {
      hide Init;
      RunLine(c, states, steps, i - 1, device, d);
      RunInv(c, states, steps, i - 1);
      RunInv(c, states, steps, i);
      HoldsOneLock(c, states[i - 1]);
      HoldsOneLock(c, states[i]);
      SequenceIsExact(c, states, steps, i - 1);
      NextOneWorker(c, states[i - 1], steps[i - 1], states[i], device);
      NextLine(c, states[i - 1], steps[i - 1], states[i], device, d);
    }
  }

  lemma InitLine(c: Config, s: State, device: Point -> Device, d: Device)
    requires Init(c, s)
    ensures OneWorker(s, device) && InOrder(LineOf(s, device, d))
  {
    TodoOfNobody(s.threads, d);
  }

  /** Main result on order: with at most one worker, the points of each device reach publish
      in the order in which write took them, and none is passed over: those handed on are the
      first of those taken. */
  lemma PublishedInOrder(c: Config, states: seq<State>, steps: seq<Step>, i: nat, device: Point -> Device, d: Device)
    requires IsRun(c, states, steps) && i <= |steps| && c.workers <= 1 && AllDivide(device, states, steps)
    ensures Of(states[i].handed, device, d) <= Of(states[i].accepted, device, d)
  {
    RunLine(c, states, steps, i, device, d);
    hide IsRun, Of;
  }

  // ------------------------------------------------------------ more than one worker

  /** The points of a device that were handed on are the first of those taken. */
  ghost predicate EndsInOrder(states: seq<State>, steps: seq<Step>, device: Point -> Device, d: Device) {
    |states| == |steps| + 1 && Of(states[|steps|].handed, device, d) <= Of(states[|steps|].accepted, device, d)
  }

  /** It is so in every run, whatever the devices. */
  ghost predicate KeepsOrder(c: Config) {
    forall states: seq<State>, steps: seq<Step>, device: Point -> Device, d: Device
      | IsRun(c, states, steps) && AllDivide(device, states, steps) :: EndsInOrder(states, steps, device, d)
  }

  const P := Point("", 0)
  const Q := Point("", 1)

  function Node(p: Point): Device { "" }

  ghost predicate Reaches(c: Config, states: seq<State>, steps: seq<Step>, s: State) {
    IsRun(c, states, steps) && AllDivide(Node, states, steps) && states[|steps|] == s
  }

  lemma ReachNext(c: Config, states: seq<State>, steps: seq<Step>, s: State, step: Step, s': State)
    returns (states': seq<State>, steps': seq<Step>)
    requires Reaches(c, states, steps, s) && Next(c, s, step, s') && Divides(Node, s, step, s')
    ensures Reaches(c, states', steps', s')
  {
    states', steps' := Extend(c, states, steps, step, s');
    hide Next, Init, Divides;
    forall i | 0 <= i < |steps'|
      ensures Divides(Node, states'[i], steps'[i], states'[i + 1])
    {
      if i < |steps| {
        assert states'[i] == states[i] && steps'[i] == steps[i] && states'[i + 1] == states[i + 1];
      }
    }
  }

  /** Two workers hold a point each, the second one what was written last. */
  ghost function BothHold(c: Config): State
    requires 2 <= c.threads
  {
    var idle := seq(c.threads, _ => Idle);
    State(true, [], [], idle[0 := Holding(P)][1 := Holding(Q)], 0, [P, Q], [], 0)
  }

  lemma ReachBothHold(c: Config) returns (states: seq<State>, steps: seq<Step>)
    requires 2 <= c.workers <= c.threads && c.queueSize >= 1
    ensures Reaches(c, states, steps, BothHold(c))
  {
    var idle: seq<Thread> := seq(c.threads, _ => Idle);
    var s0 := State(true, [], [], idle, 0, [], [], 0);
    states, steps := [s0], [];
    assert Reaches(c, states, steps, s0);
    var s1 := s0.(queue := [P], accepted := [P]);
    var s2 := At(s1, 0, Holding(P)).(queue := []);
    var s3 := s2.(queue := [Q], accepted := [P, Q]);
    var s4 := At(s3, 1, Holding(Q)).(queue := []);
    assert [] + [P] == [P] && [] + [Q] == [Q] && [P] + [Q] == [P, Q] && [P][1..] == [] && [Q][1..] == [];
    hide Reaches;
    states, steps := ReachNext(c, states, steps, s0, Write(P), s1);
    states, steps := ReachNext(c, states, steps, s1, Pop(0), s2);
    states, steps := ReachNext(c, states, steps, s2, Write(Q), s3);
    states, steps := ReachNext(c, states, steps, s3, Pop(1), s4);
  }

  const GROUPS := [Group("", [Q])]

  lemma OneGroup()
    ensures GroupedBy(Node, GROUPS, [Q]) && IsGrouping(GROUPS, [Q])
  {
    ghost var byDevice: map<Device, seq<Point>> := map["" := [Q]];
    ShareIsOf([Q], Node, "");
    OfOne(Q, Node, "");
    hide Share, Of;
    assert Tags([Q], Node) == [""];
    assert IsByDevice(byDevice, [Q], [""]);
    assert GROUPS[0].device == "" && Lists(GROUPS, byDevice);
  }

  /** The lock is taken with the second point alone in the batch. */
  ghost function FlushingSecond(c: Config, t: nat): State
    requires 2 <= c.threads && t < c.threads
  {
    At(At(BothHold(c), 1, Idle), t, Flushing(GROUPS)).(batch := [Q])
  }

  lemma AddsSecond(c: Config)
    requires 2 <= c.threads && c.batching
    ensures if 1 >= c.batchSize
            then Adds(c, BothHold(c), 1, GROUPS, FlushingSecond(c, 1))
                 && Divides(Node, BothHold(c), AddToBatch(1, GROUPS), FlushingSecond(c, 1))
            else Adds(c, BothHold(c), 1, GROUPS, At(BothHold(c), 1, Idle).(batch := [Q]))
                 && Divides(Node, BothHold(c), AddToBatch(1, GROUPS), At(BothHold(c), 1, Idle).(batch := [Q]))
  {
    OneGroup();
    hide GroupedBy, IsGrouping;
    assert [] + [Q] == [Q];
    assert FlushingSecond(c, 1) == At(BothHold(c), 1, Flushing(GROUPS)).(batch := [Q]);
  }

  lemma StartsSecond(c: Config)
    requires 2 <= c.workers < c.threads
    ensures var s := At(BothHold(c), 1, Idle).(batch := [Q]);
      && StartsFlush(c, s, c.workers, GROUPS, FlushingSecond(c, c.workers))
      && Divides(Node, s, StartFlush(c.workers, GROUPS), FlushingSecond(c, c.workers))
  {
    OneGroup();
    hide GroupedBy, IsGrouping;
  }

  lemma PublishesSecond(c: Config, t: nat)
    requires 2 <= c.threads && 0 < t < c.threads
    ensures var s := FlushingSecond(c, t);
      PublishesGroup(c, s, t, false, At(s, t, Flushing([])).(handed := [Q]))
  {
    assert GROUPS[1..] == [] && [] + [Q] == [Q];
  }

  lemma ReachFlushing(c: Config) returns (states: seq<State>, steps: seq<Step>, t: nat)
    requires 2 <= c.workers < c.threads && c.queueSize >= 1 && c.batching
    ensures 0 < t < c.threads && Reaches(c, states, steps, FlushingSecond(c, t))
  {
    states, steps := ReachBothHold(c);
    AddsSecond(c);
    hide Reaches, Adds, StartsFlush, Divides, BothHold, FlushingSecond;
    if 1 >= c.batchSize {
      t := 1;
      states, steps := ReachNext(c, states, steps, BothHold(c), AddToBatch(1, GROUPS), FlushingSecond(c, 1));
    } else {
      t := c.workers;
      var s := At(BothHold(c), 1, Idle).(batch := [Q]);
      StartsSecond(c);
      states, steps := ReachNext(c, states, steps, BothHold(c), AddToBatch(1, GROUPS), s);
      states, steps := ReachNext(c, states, steps, s, StartFlush(t, GROUPS), FlushingSecond(c, t));
    }
  }

  /** The second worker publishes first, directly or by a flush. */
  lemma SecondOvertakes(c: Config) returns (states: seq<State>, steps: seq<Step>, s: State)
    requires 2 <= c.workers <= c.threads && c.queueSize >= 1 && (c.batching ==> c.workers < c.threads)
    ensures Reaches(c, states, steps, s) && s.accepted == [P, Q] && s.handed == [Q]
  {
    hide Reaches;
    if !c.batching {
      states, steps := ReachBothHold(c);
      s := At(BothHold(c), 1, Idle).(handed := [Q]);
      assert [] + [Q] == [Q];
      states, steps := ReachNext(c, states, steps, BothHold(c), PublishPoint(1, false), s);
    } else {
      var t: nat;
      states, steps, t := ReachFlushing(c);
      s := At(FlushingSecond(c, t), t, Flushing([])).(handed := [Q]);
      PublishesSecond(c, t);
      states, steps := ReachNext(c, states, steps, FlushingSecond(c, t), PublishGroup(t, false), s);
    }
  }

  /** Main result: the points of a device reach publish in the order of write, in every run,
      exactly when there is at most one worker. */
  lemma InOrderExactlyIfOneWorker(c: Config)
    requires c.workers <= c.threads && c.queueSize >= 1 && (c.batching ==> c.workers < c.threads)
    ensures KeepsOrder(c) <==> c.workers <= 1
  {
    hide IsRun, AllDivide, EndsInOrder;
    if c.workers <= 1 {
      forall states: seq<State>, steps: seq<Step>, device: Point -> Device, d: Device
        | IsRun(c, states, steps) && AllDivide(device, states, steps)
        ensures EndsInOrder(states, steps, device, d)
      {
        RunEndsInOrder(c, states, steps, device, d);
      }
    } else {
      var states, steps, s := SecondOvertakes(c);
      OvertakenEnds(c, states, steps, s);
    }
  }

  lemma RunEndsInOrder(c: Config, states: seq<State>, steps: seq<Step>, device: Point -> Device, d: Device)
    requires IsRun(c, states, steps) && c.workers <= 1 && AllDivide(device, states, steps)
    ensures EndsInOrder(states, steps, device, d)
  {
    PublishedInOrder(c, states, steps, |steps|, device, d);
    hide Next, Of, Init, Divides;
  }

  lemma OvertakenEnds(c: Config, states: seq<State>, steps: seq<Step>, s: State)
    requires Reaches(c, states, steps, s) && s.accepted == [P, Q] && s.handed == [Q]
    ensures IsRun(c, states, steps) && AllDivide(Node, states, steps) && !EndsInOrder(states, steps, Node, "")
  {
    hide Next, Init, Divides, Of;
    OfDevice([Q], Node, "");
    OfDevice([P, Q], Node, "");
    assert [Q][0] != [P, Q][0];
  }
}
