/** The Sparkplug scoop: birth and death messages keep the state of nodes and devices, data
    messages are resolved against the aliases of the last birth, and the points wait in a
    bounded buffer. The history of messages is kept as ghost state, and everything the
    scoop holds is shown to be a function of it. */
module SparkplugScoop {
  import opened DataPoints
  import opened GetLine
  import opened SparkplugTopic
  import opened Wrappers

  /** An alias of 0 is no alias. */
  datatype Metric = Metric(name: string, alias: nat, reading: int)

  datatype Payload = Payload(timestamp: nat, metrics: seq<Metric>)

  datatype Config = Config(processBirths: bool, processDeaths: bool, processData: bool, queueSize: nat)

  /** The group is kept for nodes only. */
  datatype OwnerState = OwnerState(
    group: string, online: bool, birthTime: nat, metrics: seq<string>, aliases: map<nat, string>)

  datatype Owner = Node(node: string) | Device(node: string, device: string)

  /** A message as it arrives: the topic as parsed, the payload as decoded. */
  datatype Message = Message(topic: Option<Topic>, payload: Option<Payload>)

  // ------------------------------------------------------- what a message says

  predicate Births(c: Config, m: Message, o: Owner) {
    && c.processBirths && m.topic.Some? && m.payload.Some?
    && var t := m.topic.value;
       match o
       case Node(n) => t.messageType == NBIRTH && t.node == n
       case Device(n, d) => t.messageType == DBIRTH && t.node == n && t.device == d
  }

  /** A node's death takes its devices with it. */
  predicate Kills(c: Config, m: Message, o: Owner) {
    && c.processDeaths && m.topic.Some?
    && var t := m.topic.value;
       match o
       case Node(n) => t.messageType == NDEATH && t.node == n
       case Device(n, d) => t.node == n && (t.messageType == NDEATH || (t.messageType == DDEATH && t.device == d))
  }

  function Names(metrics: seq<Metric>): (names: seq<string>)
    ensures |names| == |metrics| && forall i | 0 <= i < |metrics| :: names[i] == metrics[i].name
  {
    if metrics == [] then [] else Names(metrics[..|metrics| - 1]) + [metrics[|metrics| - 1].name]
  }

  function Table(metrics: seq<Metric>): map<nat, string> {
    if metrics == [] then map[]
    else
      var last := metrics[|metrics| - 1];
      var table := Table(metrics[..|metrics| - 1]);
      if last.alias > 0 then table[last.alias := last.name] else table
  }

  function Born(group: string, p: Payload): OwnerState {
    OwnerState(group, true, p.timestamp, Names(p.metrics), Table(p.metrics))
  }

  function GroupOf(m: Message, o: Owner): string {
    if o.Node? && m.topic.Some? then m.topic.value.group else ""
  }

  /** The state a history leaves an owner in. */
  ghost function StateAfter(c: Config, history: seq<Message>, o: Owner): Option<OwnerState> {
    if history == [] then None
    else Moved(c, StateAfter(c, history[..|history| - 1], o), history[|history| - 1], o)
  }

  function Moved(c: Config, s: Option<OwnerState>, m: Message, o: Owner): Option<OwnerState> {
    if Births(c, m, o) then Some(Born(GroupOf(m, o), m.payload.value))
    else if Kills(c, m, o) && s.Some? then Some(s.value.(online := false))
    else s
  }

  lemma OneMoreMessage(c: Config, history: seq<Message>, m: Message, o: Owner)
    ensures StateAfter(c, history + [m], o) == Moved(c, StateAfter(c, history, o), m, o)
  {
    assert (history + [m])[..|history|] == history;
  }

  /** Main result on the online flags: an owner is online exactly when some processed,
      decodable birth of it has no later processed death of it or of its node. */
  lemma {:induction false} OnlineIsHistory(c: Config, history: seq<Message>, o: Owner)
    ensures (StateAfter(c, history, o).Some? && StateAfter(c, history, o).value.online)
        <==> exists i :: 0 <= i < |history| && Births(c, history[i], o)
                         && forall j | i < j < |history| :: !Kills(c, history[j], o)
    decreases |history|
  {
    if history != [] {
      var n := |history| - 1;
      var before := history[..n];
      OnlineIsHistory(c, before, o);
      LastMessage(c, history, o);
      hide Births, Kills, StateAfter;
      if Births(c, history[n], o) {
        assert Survives(c, history, o);
      } else {
        SurvivesLast(c, history, o);
      }
    }
  }

  lemma LastMessage(c: Config, history: seq<Message>, o: Owner)
    requires history != []
    ensures StateAfter(c, history, o)
         == Moved(c, StateAfter(c, history[..|history| - 1], o), history[|history| - 1], o)
  {
  }

  ghost predicate Survives(c: Config, history: seq<Message>, o: Owner) {
    exists i :: 0 <= i < |history| && Births(c, history[i], o)
                && forall j | i < j < |history| :: !Kills(c, history[j], o)
  }

  lemma SurvivedBefore(c: Config, history: seq<Message>, o: Owner)
    requires history != [] && !Births(c, history[|history| - 1], o) && Survives(c, history, o)
    ensures Survives(c, history[..|history| - 1], o) && !Kills(c, history[|history| - 1], o)
  {
    hide Births, Kills;
    var n := |history| - 1;
    var before := history[..n];
    var i :| 0 <= i < |history| && Births(c, history[i], o) && forall j | i < j < |history| :: !Kills(c, history[j], o);
    assert i < n && before[i] == history[i];
    assert forall j | i < j < n :: before[j] == history[j];
  }

  lemma SurvivesOneMore(c: Config, history: seq<Message>, o: Owner)
    requires history != [] && Survives(c, history[..|history| - 1], o) && !Kills(c, history[|history| - 1], o)
    ensures Survives(c, history, o)
  {
    hide Births, Kills;
    var n := |history| - 1;
    var before := history[..n];
    var i :| 0 <= i < n && Births(c, before[i], o) && forall j | i < j < n :: !Kills(c, before[j], o);
    assert history[i] == before[i];
    forall j | i < j < |history|
      ensures !Kills(c, history[j], o)
    {
      assert j < n ==> before[j] == history[j];
    }
  }

  lemma SurvivesLast(c: Config, history: seq<Message>, o: Owner)
    requires history != [] && !Births(c, history[|history| - 1], o)
    ensures Survives(c, history, o)
        <==> Survives(c, history[..|history| - 1], o) && !Kills(c, history[|history| - 1], o)
  {
    hide *;
    if Survives(c, history, o) {
      SurvivedBefore(c, history, o);
    }
    if Survives(c, history[..|history| - 1], o) && !Kills(c, history[|history| - 1], o) {
      SurvivesOneMore(c, history, o);
    }
  }

  ghost predicate LastBirth(c: Config, history: seq<Message>, o: Owner, i: nat) {
    i < |history| && Births(c, history[i], o) && forall j | i < j < |history| :: !Births(c, history[j], o)
  }

  /** Main result on the alias tables: an owner is known exactly when it has a processed,
      decodable birth, and its metrics and aliases are those of the last one. */
  lemma {:induction false} LastBirthRules(c: Config, history: seq<Message>, o: Owner)
    ensures StateAfter(c, history, o).Some? <==> exists i: nat :: LastBirth(c, history, o, i)
    ensures forall i: nat | LastBirth(c, history, o, i) :: StateAfter(c, history, o).Some?
              && StateAfter(c, history, o).value.(online := true)
                 == Born(GroupOf(history[i], o), history[i].payload.value)
    decreases |history|
  {
    if history != [] {
      var n := |history| - 1;
      var before := history[..n];
      LastBirthRules(c, before, o);
      LastMessage(c, history, o);
      hide StateAfter, Born;
      if Births(c, history[n], o) {
        assert LastBirth(c, history, o, n);
      } else {
        forall i: nat
          ensures LastBirth(c, history, o, i) <==> LastBirth(c, before, o, i)
        {
          LastBirthLater(c, history, o, i);
        }
      }
    }
  }

  lemma LastBirthLater(c: Config, history: seq<Message>, o: Owner, i: nat)
    requires history != [] && !Births(c, history[|history| - 1], o)
    ensures LastBirth(c, history, o, i) <==> LastBirth(c, history[..|history| - 1], o, i)
  {
    hide Births;
    var n := |history| - 1;
    var before := history[..n];
    if LastBirth(c, before, o, i) {
      assert history[i] == before[i];
      forall j | i < j < |history|
        ensures !Births(c, history[j], o)
      {
        assert j < n ==> before[j] == history[j];
      }
    }
    if LastBirth(c, history, o, i) {
      assert i < n && history[i] == before[i];
    }
  }

  // ------------------------------------------------------------------ groups apart

  predicate Foreign(m: Message, group: string) {
    m.topic.Some? && m.topic.value.group != group
  }

  /** The history without the messages of other groups. */
  function OfGroup(history: seq<Message>, group: string): seq<Message> {
    if history == [] then []
    else
      var last := history[|history| - 1];
      OfGroup(history[..|history| - 1], group) + if Foreign(last, group) then [] else [last]
  }

  /** After k messages the owner is in the state its own group's messages leave it in. */
  ghost predicate GroupAgrees(c: Config, history: seq<Message>, o: Owner, group: string, k: nat)
    requires k <= |history|
  {
    StateAfter(c, history[..k], o) == StateAfter(c, OfGroup(history[..k], group), o)
  }

  /** It is so at every moment. */
  ghost predicate GroupDecides(c: Config, history: seq<Message>, o: Owner, group: string) {
    forall k: nat | k <= |history| :: GroupAgrees(c, history, o, group, k)
  }

  /** The birth of o that counts in a history: none comes later, and no death. */
  ghost predicate LivesSince(c: Config, history: seq<Message>, o: Owner, i: nat) {
    LastBirth(c, history, o, i) && forall j | i < j < |history| :: !Kills(c, history[j], o)
  }

  /** Two birth payloads that say the same: time, metric names and alias table. */
  predicate SameBirth(p: Payload, q: Payload) {
    p.timestamp == q.timestamp && Names(p.metrics) == Names(q.metrics) && Table(p.metrics) == Table(q.metrics)
  }

  /** A device lives since a birth that says the same as m. */
  ghost predicate BornAlike(c: Config, own: seq<Message>, m: Message, o: Owner)
    requires Births(c, m, o)
  {
    o.Device? && exists i: nat :: LivesSince(c, own, o, i) && SameBirth(own[i].payload.value, m.payload.value)
  }

  /** A message of another group is a processed birth of the owner, unless it repeats to a
      living device what its group's last birth said; or a processed death of an owner that
      lives by the messages of its own group. */
  ghost predicate Meddles(c: Config, history: seq<Message>, o: Owner, group: string, i: nat)
    requires i < |history|
  {
    var own, m := OfGroup(history[..i], group), history[i];
    && Foreign(m, group)
    && if Births(c, m, o) then !BornAlike(c, own, m, o) else Kills(c, m, o) && Survives(c, own, o)
  }

  lemma {:induction false} OwnGroup(history: seq<Message>, group: string)
    ensures forall m | m in OfGroup(history, group) :: !Foreign(m, group)
    decreases |history|
  {
    if history != [] {
      OwnGroup(history[..|history| - 1], group);
    }
  }

  /** An owner is online exactly when it lives since its last birth. */
  lemma OnlineSince(c: Config, history: seq<Message>, o: Owner, i: nat)
    requires LastBirth(c, history, o, i)
    ensures StateAfter(c, history, o).Some?
    ensures StateAfter(c, history, o).value.online <==> LivesSince(c, history, o, i)
  {
    OnlineIsHistory(c, history, o);
    LastBirthRules(c, history, o);
    hide Births, Kills, StateAfter;
    if k :| 0 <= k < |history| && Births(c, history[k], o) && forall j | k < j < |history| :: !Kills(c, history[j], o) {
      assert k <= i;
    }
  }

  /** A foreign birth changes nothing exactly when it repeats the one the owner lives by. */
  lemma BirthChanges(c: Config, own: seq<Message>, m: Message, o: Owner, group: string)
    requires (forall x | x in own :: !Foreign(x, group)) && Foreign(m, group) && Births(c, m, o)
    ensures Moved(c, StateAfter(c, own, o), m, o) == StateAfter(c, own, o) <==> BornAlike(c, own, m, o)
  {
    var mine := StateAfter(c, own, o);
    LastBirthRules(c, own, o);
    hide StateAfter, LastBirth;
    if i: nat :| LastBirth(c, own, o, i) {
      OnlineSince(c, own, o, i);
      LastBirthIs(c, own, o, i);
      assert own[i] in own;
      OneLastBirth(c, own, o, i);
      hide LivesSince, Names, Table;
    }
  }

  lemma LastBirthIs(c: Config, own: seq<Message>, o: Owner, i: nat)
    requires LastBirth(c, own, o, i)
    ensures i < |own| && Births(c, own[i], o)
  {
  }

  lemma OneLastBirth(c: Config, own: seq<Message>, o: Owner, i: nat)
    requires LastBirth(c, own, o, i)
    ensures forall j: nat | LastBirth(c, own, o, j) :: j == i
  {
    hide Births;
  }

  lemma MeddlingChanges(c: Config, history: seq<Message>, o: Owner, group: string, i: nat)
    requires i < |history| && Foreign(history[i], group)
    ensures var mine := StateAfter(c, OfGroup(history[..i], group), o);
      Moved(c, mine, history[i], o) != mine <==> Meddles(c, history, o, group, i)
  {
    var own, m := OfGroup(history[..i], group), history[i];
    OwnGroup(history[..i], group);
    hide OfGroup, StateAfter;
    if Births(c, m, o) {
      BirthChanges(c, own, m, o, group);
    } else {
      OnlineIsHistory(c, own, o);
      hide Births, Kills, BornAlike;
    }
  }

  lemma OneMoreOfGroup(c: Config, history: seq<Message>, o: Owner, group: string, i: nat)
    requires i < |history|
    ensures StateAfter(c, history[..i + 1], o) == Moved(c, StateAfter(c, history[..i], o), history[i], o)
    ensures StateAfter(c, OfGroup(history[..i + 1], group), o)
         == var mine := StateAfter(c, OfGroup(history[..i], group), o);
            if Foreign(history[i], group) then mine else Moved(c, mine, history[i], o)
  {
    var more, some := history[..i + 1], history[..i];
    assert some + [history[i]] == more;
    hide Moved, StateAfter;
    OneMoreMessage(c, some, history[i], o);
    OneMoreMessage(c, OfGroup(some, group), history[i], o);
    OfGroupMore(some, history[i], group);
  }

  lemma OfGroupMore(history: seq<Message>, m: Message, group: string)
    ensures OfGroup(history + [m], group)
         == if Foreign(m, group) then OfGroup(history, group) else OfGroup(history, group) + [m]
  {
    assert (history + [m])[..|history|] == history;
    assert OfGroup(history, group) + [] == OfGroup(history, group);
  }

  lemma {:induction false} AgreesUntil(c: Config, history: seq<Message>, o: Owner, group: string, k: nat)
    requires k <= |history| && forall i: nat | i < k :: !Meddles(c, history, o, group, i)
    ensures GroupAgrees(c, history, o, group, k)
    decreases k
  {
    if k > 0 {
      hide Meddles;
      AgreesUntil(c, history, o, group, k - 1);
      OneMoreOfGroup(c, history, o, group, k - 1);
      if Foreign(history[k - 1], group) {
        MeddlingChanges(c, history, o, group, k - 1);
      }
      hide StateAfter, Moved, OfGroup;
    }
  }

  lemma MeddlingShows(c: Config, history: seq<Message>, o: Owner, group: string, i: nat)
    requires i < |history| && Meddles(c, history, o, group, i)
    ensures !GroupAgrees(c, history, o, group, i) || !GroupAgrees(c, history, o, group, i + 1)
  {
    OneMoreOfGroup(c, history, o, group, i);
    MeddlingChanges(c, history, o, group, i);
    hide StateAfter, Moved, OfGroup, Births, Kills, BornAlike, Survives;
  }

  /** Main result on groups: nodes of one name in different groups share their state. The
      messages of its own group decide an owner's state at every moment exactly when no
      message of another group is a birth of the owner or a death while it lives, except
      births of a living device that repeat its own last one. */
  lemma GroupsApart(c: Config, history: seq<Message>, o: Owner, group: string)
    ensures GroupDecides(c, history, o, group)
        <==> forall i: nat | i < |history| :: !Meddles(c, history, o, group, i)
  {
    hide GroupAgrees, Meddles;
    if i: nat :| i < |history| && Meddles(c, history, o, group, i) {
      MeddlingShows(c, history, o, group, i);
    } else {
      forall k: nat | k <= |history|
        ensures GroupAgrees(c, history, o, group, k)
      {
        AgreesUntil(c, history, o, group, k);
      }
    }
  }

  /** For a node: no birth in another group names it, and no death in another group does
      while it lives by the messages of its own. */
  lemma NodesApart(c: Config, history: seq<Message>, node: string, group: string)
    ensures GroupDecides(c, history, Node(node), group)
        <==> forall i: nat | i < |history| && Foreign(history[i], group) ::
               && !Births(c, history[i], Node(node))
               && (Kills(c, history[i], Node(node)) ==> !Survives(c, OfGroup(history[..i], group), Node(node)))
  {
    GroupsApart(c, history, Node(node), group);
    forall i: nat | i < |history|
      ensures Meddles(c, history, Node(node), group, i)
          <==> Foreign(history[i], group)
               && (Births(c, history[i], Node(node))
                   || (Kills(c, history[i], Node(node)) && Survives(c, OfGroup(history[..i], group), Node(node))))
    {
      hide Births, Kills, Survives, OfGroup;
    }
    hide *;
  }

  /** So it is where no processed birth or death in another group names the owner's node. */
  lemma UntouchedByOthers(c: Config, history: seq<Message>, o: Owner, group: string)
    requires forall m | m in history && Foreign(m, group) :: !Births(c, m, o) && !Kills(c, m, o)
    ensures StateAfter(c, history, o) == StateAfter(c, OfGroup(history, group), o)
  {
    forall i: nat | i < |history|
      ensures !Meddles(c, history, o, group, i)
    {
      assert history[i] in history;
      hide Births, Kills, StateAfter;
    }
    assert history[..|history|] == history;
    AgreesUntil(c, history, o, group, |history|);
  }

  function NodeMessage(group: string, messageType: MessageType): Message {
    Message(Some(Topic(group, messageType, "pump", "")), Some(Payload(0, [])))
  }

  lemma BirthThenDeath(c: Config, birth: Message, death: Message, o: Owner)
    ensures StateAfter(c, [birth], o) == Moved(c, None, birth, o)
    ensures StateAfter(c, [birth, death], o) == Moved(c, Moved(c, None, birth, o), death, o)
  {
    hide Moved;
    OneMoreMessage(c, [], birth, o);
    OneMoreMessage(c, [birth], death, o);
    assert [] + [birth] == [birth] && [birth] + [death] == [birth, death];
  }

  lemma BirthOfGroup(birth: Message, death: Message, group: string)
    requires !Foreign(birth, group) && Foreign(death, group)
    ensures OfGroup([birth, death], group) == [birth]
  {
    hide Foreign;
    OfGroupMore([], birth, group);
    OfGroupMore([birth], death, group);
    assert [] + [birth] == [birth] && [birth] + [death] == [birth, death];
  }

  /** A death in group "B" takes the node of the same name in group "A" offline. */
  lemma ForeignDeathSwitchesOff(c: Config)
    requires c.processBirths && c.processDeaths
    ensures var history := [NodeMessage("A", NBIRTH), NodeMessage("B", NDEATH)];
      && StateAfter(c, history, Node("pump")) == Some(OwnerState("A", false, 0, [], map[]))
      && StateAfter(c, OfGroup(history, "A"), Node("pump")) == Some(OwnerState("A", true, 0, [], map[]))
  {
    hide StateAfter, OfGroup;
    var birth, death := NodeMessage("A", NBIRTH), NodeMessage("B", NDEATH);
    assert "A"[0] != "B"[0];
    BirthThenDeath(c, birth, death, Node("pump"));
    BirthOfGroup(birth, death, "A");
  }

  /** A table maps each alias in use to the name of the last metric that has it. */
  lemma {:induction false} TableMeans(metrics: seq<Metric>, alias: nat)
    ensures alias in Table(metrics) <==> alias > 0 && exists k :: 0 <= k < |metrics| && metrics[k].alias == alias
    ensures forall k | 0 <= k < |metrics| && metrics[k].alias == alias > 0
                       && (forall j | k < j < |metrics| :: metrics[j].alias != alias)
              :: alias in Table(metrics) && Table(metrics)[alias] == metrics[k].name
    decreases |metrics|
  {
    if metrics != [] {
      var n := |metrics| - 1;
      var before := metrics[..n];
      TableMeans(before, alias);
      assert forall k | 0 <= k < n :: before[k] == metrics[k];
      if alias in Table(before) {
        var k :| 0 <= k < n && before[k].alias == alias;
        assert metrics[k].alias == alias;
      }
    }
  }

  // ------------------------------------------------------------------ the points

  function Address(node: string, device: string, name: string): string {
    "sparkplug/" + node + (if device == "" then "" else "/" + device) + "/" + name
  }

  /** The points of the named metrics, in order. */
  function Points(metrics: seq<Metric>, node: string, device: string): seq<Point> {
    if metrics == [] then []
    else
      var last := metrics[|metrics| - 1];
      Points(metrics[..|metrics| - 1], node, device)
      + if last.name == "" then [] else [Point(Address(node, device, last.name), last.reading)]
  }

  function Named(aliases: map<nat, string>, metric: Metric): Metric {
    if metric.name == "" && metric.alias > 0 && metric.alias in aliases
    then metric.(name := aliases[metric.alias]) else metric
  }

  function Resolved(aliases: map<nat, string>, metrics: seq<Metric>): (r: seq<Metric>)
    ensures |r| == |metrics| && forall i | 0 <= i < |metrics| :: r[i] == Named(aliases, metrics[i])
  {
    if metrics == [] then []
    else Resolved(aliases, metrics[..|metrics| - 1]) + [Named(aliases, metrics[|metrics| - 1])]
  }

  /** Whose aliases a data message is read with. */
  function Reader(node: string, device: string): Owner {
    if device == "" then Node(node) else Device(node, device)
  }

  function AliasesOf(s: Option<OwnerState>): map<nat, string> {
    if s.Some? then s.value.aliases else map[]
  }

  /** The device a message's points are filed under. */
  function Filed(t: Topic): string {
    if t.messageType == DBIRTH || t.messageType == DDATA then t.device else ""
  }

  predicate IsBirth(c: Config, m: Message) {
    c.processBirths && m.topic.Some? && m.topic.value.messageType in {NBIRTH, DBIRTH}
  }

  predicate IsDeath(c: Config, m: Message) {
    c.processDeaths && m.topic.Some? && m.topic.value.messageType in {NDEATH, DDEATH}
  }

  predicate IsData(c: Config, m: Message) {
    c.processData && m.topic.Some? && m.topic.value.messageType in {NDATA, DDATA}
  }

  /** The points a message brings, given whose aliases are read. */
  function Contents(c: Config, m: Message, reader: Option<OwnerState>): seq<Point> {
    if m.payload.None? || !(IsBirth(c, m) || IsData(c, m)) then []
    else
      var t := m.topic.value;
      var metrics := m.payload.value.metrics;
      Points(if IsBirth(c, m) then metrics else Resolved(AliasesOf(reader), metrics), t.node, Filed(t))
  }

  function ReaderOf(m: Message): Owner {
    if m.topic.None? then Node("") else Reader(m.topic.value.node, Filed(m.topic.value))
  }

  /** The points a message brings, after a history. */
  ghost function Brings(c: Config, history: seq<Message>, m: Message): seq<Point> {
    Contents(c, m, StateAfter(c, history, ReaderOf(m)))
  }

  // ------------------------------------------------------ where points are filed

  lemma FirstPartUnique(a: string, x: string, b: string, y: string)
    requires NoSlash(a) && NoSlash(b)
    ensures a + "/" + x == b + "/" + y <==> a == b && x == y
  {
    var s := a + "/" + x;
    if s == b + "/" + y {
      assert s[..|a|] == a && s[|a|] == '/' && s[|a| + 1..] == x;
      assert s[..|b|] == b && s[|b|] == '/' && s[|b| + 1..] == y;
      CutAt(s, |a|);
      CutAt(s, |b|);
    }
  }

  /** Where a metric lies below its node. */
  function Below(device: string, name: string): string {
    if device == "" then name else device + "/" + name
  }

  lemma AddressForm(node: string, device: string, name: string)
    ensures Address(node, device, name) == "sparkplug" + "/" + (node + "/" + Below(device, name))
  {
    var head := "sparkplug" + "/";
    assert head == "sparkplug/";
    if device == "" {
      assert head + node + "" + "/" + name == head + (node + "/" + name);
    } else {
      assert head + node + ("/" + device) + "/" + name == head + (node + "/" + (device + "/" + name));
    }
  }

  lemma PrefixNoSlash()
    ensures NoSlash("sparkplug")
  {
  }

  lemma TwoParts(a: string, b: string, rest: string)
    requires NoSlash(a) && NoSlash(b)
    ensures Lines(a + "/" + (b + "/" + rest)) == [a, b] + Lines(rest)
  {
    hide Lines, NoSlash;
    FirstPart(a, b + "/" + rest);
    FirstPart(b, rest);
    assert [a] + ([b] + Lines(rest)) == [a, b] + Lines(rest);
  }

  /** The parts of an address: the node, the device if there is one, and the name. */
  lemma AddressParts(node: string, device: string, name: string)
    requires NoSlash(node) && NoSlash(device)
    ensures Lines(Address(node, device, name))
         == ["sparkplug", node] + (if device == "" then [] else [device]) + Lines(name)
  {
    PrefixNoSlash();
    hide Lines, Address, NoSlash;
    AddressForm(node, device, name);
    TwoParts("sparkplug", node, Below(device, name));
    if device != "" {
      FirstPart(device, name);
      assert ["sparkplug", node] + ([device] + Lines(name)) == ["sparkplug", node] + [device] + Lines(name);
    }
  }

  /** Main result on addresses: two metrics share an address exactly if they are of one node
      and have one name of one device, or the name of a metric of the node itself spells out
      the device and the name of the other. */
  lemma AddressesCollide(node: string, device: string, name: string, node': string, device': string, name': string)
    requires NoSlash(node) && NoSlash(device) && NoSlash(node') && NoSlash(device')
    ensures Address(node, device, name) == Address(node', device', name')
       <==> node == node' && (
              || (device == device' && name == name')
              || (device == "" && device' != "" && name == device' + "/" + name')
              || (device' == "" && device != "" && name' == device + "/" + name))
  {
    var x, y := Below(device, name), Below(device', name');
    AddressForm(node, device, name);
    AddressForm(node', device', name');
    SamePrefix("sparkplug" + "/", node + "/" + x, node' + "/" + y);
    FirstPartUnique(node, x, node', y);
    FirstPartUnique(device, name, device', name');
    hide Address, NoSlash;
  }

  lemma SamePrefix(a: string, x: string, y: string)
    ensures a + x == a + y <==> x == y
  {
    assert (a + x)[|a|..] == x && (a + y)[|a|..] == y;
  }

  /** A name with a slash can collide. */
  lemma SlashedNameCollides()
    ensures Address("pump", "", "motor/rpm") == Address("pump", "motor", "rpm") == "sparkplug/pump/motor/rpm"
  {
  }

  lemma {:induction false} PointOfMetric(metrics: seq<Metric>, node: string, device: string, p: Point)
    requires p in Points(metrics, node, device)
    ensures exists k :: 0 <= k < |metrics| && metrics[k].name != ""
                        && p == Point(Address(node, device, metrics[k].name), metrics[k].reading)
    decreases |metrics|
  {
    hide Address;
    var n := |metrics| - 1;
    if p in Points(metrics[..n], node, device) {
      PointOfMetric(metrics[..n], node, device, p);
      var k :| 0 <= k < n && metrics[..n][k].name != ""
               && p == Point(Address(node, device, metrics[..n][k].name), metrics[..n][k].reading);
      assert metrics[k] == metrics[..n][k];
    }
  }

  /** The point of a metric under a topic: its reading, and an address with the topic's
      node, its device if it is a device's, and the name of the metric if it has one. */
  ghost predicate FiledFor(p: Point, metric: Metric, t: Topic, name: string) {
    && p.reading == metric.reading && name != "" && (metric.name != "" ==> name == metric.name)
    && Lines(p.address)
       == if (t.messageType == DBIRTH || t.messageType == DDATA) && t.device != ""
          then ["sparkplug", t.node, t.device] + Lines(name)
          else ["sparkplug", t.node] + Lines(name)
  }

  lemma FiledParts(t: Topic, name: string)
    requires FieldsNoSlash(t)
    ensures Lines(Address(t.node, Filed(t), name))
         == if (t.messageType == DBIRTH || t.messageType == DDATA) && t.device != ""
            then ["sparkplug", t.node, t.device] + Lines(name)
            else ["sparkplug", t.node] + Lines(name)
  {
    assert NoSlash("");
    AddressParts(t.node, Filed(t), name);
    hide Lines, Address, NoSlash;
    assert ["sparkplug", t.node] + [t.device] == ["sparkplug", t.node, t.device];
    assert ["sparkplug", t.node] + [] == ["sparkplug", t.node];
  }

  /** A point filed for some metric of the payload under the message's topic. */
  ghost predicate IsFiled(p: Point, text: string, decoded: Option<Payload>) {
    && Parsed(text).Some? && decoded.Some?
    && exists metric, name :: metric in decoded.value.metrics && FiledFor(p, metric, Parsed(text).value, name)
  }

  /** Main result on points: every point a message brings, whatever came before, is filed
      under the node and device of its topic for one of its metrics. */
  lemma BroughtIsFiled(c: Config, history: seq<Message>, text: string, decoded: Option<Payload>, p: Point)
    requires p in Brings(c, history, Message(Parsed(text), decoded))
    ensures IsFiled(p, text, decoded)
  {
    var m := Message(Parsed(text), decoded);
    LinesSlashFree(text);
    ReadsSlashFree(Lines(text));
    hide Parsed, StateAfter, Points, Lines, NoSlash, FiledFor;
    var t, own := m.topic.value, decoded.value.metrics;
    var metrics := if IsBirth(c, m) then own else Resolved(AliasesOf(StateAfter(c, history, ReaderOf(m))), own);
    PointOfMetric(metrics, t.node, Filed(t), p);
    hide Address, Filed;
    var k :| 0 <= k < |metrics| && metrics[k].name != ""
             && p == Point(Address(t.node, Filed(t), metrics[k].name), metrics[k].reading);
    FiledParts(t, metrics[k].name);
    IsFiledFor(p, own[k], t, metrics[k].name);
  }

  lemma BringsFiled(c: Config, history: seq<Message>, text: string, decoded: Option<Payload>, k: nat)
    ensures var points := Brings(c, history, Message(Parsed(text), decoded));
      k <= |points| ==> forall p | p in points[..k] :: IsFiled(p, text, decoded)
  {
    hide *;
    var points := Brings(c, history, Message(Parsed(text), decoded));
    if k <= |points| {
      forall p | p in points[..k]
        ensures IsFiled(p, text, decoded)
      {
        BroughtIsFiled(c, history, text, decoded, p);
      }
    }
  }

  lemma IsFiledFor(p: Point, metric: Metric, t: Topic, name: string)
    requires FieldsNoSlash(t) && p == Point(Address(t.node, Filed(t), name), metric.reading)
    requires name != "" && (metric.name != "" ==> name == metric.name)
    ensures FiledFor(p, metric, t, name)
  {
    FiledParts(t, name);
    hide Lines, Address, Filed;
  }

  // --------------------------------------------- when an alias gets its name

  /** The last metric with the alias has a name. */
  ghost predicate NamesAlias(metrics: seq<Metric>, alias: nat) {
    exists k :: 0 <= k < |metrics| && LastWith(metrics, alias, k) && metrics[k].name != ""
  }

  ghost predicate LastWith(metrics: seq<Metric>, alias: nat, k: nat)
    requires k < |metrics|
  {
    metrics[k].alias == alias && forall j | k < j < |metrics| :: metrics[j].alias != alias
  }

  /** The last birth of an owner names the alias. */
  ghost predicate BirthNamesAlias(c: Config, history: seq<Message>, o: Owner, alias: nat) {
    exists i: nat :: LastBirth(c, history, o, i) && NamesAlias(history[i].payload.value.metrics, alias)
  }

  lemma {:induction false} LastOne(metrics: seq<Metric>, alias: nat) returns (k: nat)
    requires exists j :: 0 <= j < |metrics| && metrics[j].alias == alias
    ensures k < |metrics| && LastWith(metrics, alias, k)
    decreases |metrics|
  {
    var n := |metrics| - 1;
    if metrics[n].alias == alias {
      k := n;
    } else {
      var before := metrics[..n];
      var j :| 0 <= j < |metrics| && metrics[j].alias == alias;
      assert before[j].alias == alias;
      k := LastOne(before, alias);
      assert forall i | k < i < n :: before[i] == metrics[i];
    }
  }

  lemma TableNames(metrics: seq<Metric>, alias: nat)
    requires alias > 0
    ensures alias in Table(metrics) && Table(metrics)[alias] != "" <==> NamesAlias(metrics, alias)
  {
    TableMeans(metrics, alias);
    if alias in Table(metrics) {
      var k := LastOne(metrics, alias);
      assert Table(metrics)[alias] == metrics[k].name;
      forall j | 0 <= j < |metrics| && LastWith(metrics, alias, j)
        ensures j == k
      {
      }
    }
    if NamesAlias(metrics, alias) {
      var k :| 0 <= k < |metrics| && LastWith(metrics, alias, k) && metrics[k].name != "";
      assert metrics[k].alias == alias;
    }
  }

  /** Main result on aliases: an unnamed metric with an alias gets a name if and only if
      the reader's last processed, decodable birth has, as its last metric with that
      alias, one with a name. */
  lemma ResolvesExactly(c: Config, history: seq<Message>, o: Owner, metric: Metric)
    requires metric.name == "" && metric.alias > 0
    ensures Named(AliasesOf(StateAfter(c, history, o)), metric).name != ""
       <==> BirthNamesAlias(c, history, o, metric.alias)
  {
    LastBirthRules(c, history, o);
    var s := StateAfter(c, history, o);
    hide StateAfter, LastBirth, NamesAlias, Table, Names, Births;
    forall i: nat | LastBirth(c, history, o, i)
      ensures i < |history| && history[i].payload.Some?
      ensures Named(AliasesOf(s), metric).name != "" <==> NamesAlias(history[i].payload.value.metrics, metric.alias)
    {
      LastBirthIn(c, history, o, i);
      TableNames(history[i].payload.value.metrics, metric.alias);
      assert AliasesOf(s) == s.value.(online := true).aliases;
    }
  }

  lemma LastBirthIn(c: Config, history: seq<Message>, o: Owner, i: nat)
    requires LastBirth(c, history, o, i)
    ensures i < |history| && history[i].payload.Some?
  {
  }

  // ---------------------------------------- payloads of the simplified wire form

  /** A metric read from the simplified wire form has a name or an alias, not both. */
  predicate NameOrAlias(metrics: seq<Metric>) {
    forall k | 0 <= k < |metrics| :: metrics[k].name == "" || metrics[k].alias == 0
  }

  predicate NamesNothing(aliases: map<nat, string>) {
    forall a | a in aliases :: aliases[a] == ""
  }

  lemma {:induction false} TableNamesNothing(metrics: seq<Metric>)
    requires NameOrAlias(metrics)
    ensures NamesNothing(Table(metrics))
    decreases |metrics|
  {
    if metrics != [] {
      TableNamesNothing(metrics[..|metrics| - 1]);
    }
  }

  lemma {:induction false} StateNamesNothing(c: Config, history: seq<Message>, o: Owner)
    requires forall i | 0 <= i < |history| :: history[i].payload.Some? ==> NameOrAlias(history[i].payload.value.metrics)
    ensures NamesNothing(AliasesOf(StateAfter(c, history, o)))
    decreases |history|
  {
    if history != [] {
      var n := |history| - 1;
      hide Births, Kills, NameOrAlias, NamesNothing, Table, Names;
      StateNamesNothing(c, history[..n], o);
      if Births(c, history[n], o) {
        BirthHasPayload(c, history[n], o);
        TableNamesNothing(history[n].payload.value.metrics);
      }
    } else {
      assert NamesNothing(map[]);
    }
  }

  lemma BirthHasPayload(c: Config, m: Message, o: Owner)
    requires Births(c, m, o)
    ensures m.payload.Some?
  {
  }

  lemma {:induction false} NothingResolved(aliases: map<nat, string>, metrics: seq<Metric>, node: string,
                                           device: string)
    requires NamesNothing(aliases)
    ensures Points(Resolved(aliases, metrics), node, device) == Points(metrics, node, device)
    decreases |metrics|
  {
    hide Address;
    if metrics != [] {
      var n := |metrics| - 1;
      NothingResolved(aliases, metrics[..n], node, device);
      assert Resolved(aliases, metrics)[..n] == Resolved(aliases, metrics[..n]);
      assert Named(aliases, metrics[n]) == metrics[n];
    }
  }

  /** With payloads of the simplified wire form aliases are never resolved: a birth's table
      has an empty name for each alias, so a data message brings the points of the metrics
      that carry their own names, and no others. */
  lemma SimplifiedFormNeverResolves(c: Config, history: seq<Message>, m: Message)
    requires forall i | 0 <= i < |history| :: history[i].payload.Some? ==> NameOrAlias(history[i].payload.value.metrics)
    ensures m.payload.Some? && IsData(c, m)
            ==> Brings(c, history, m) == Points(m.payload.value.metrics, m.topic.value.node, Filed(m.topic.value))
  {
    StateNamesNothing(c, history, ReaderOf(m));
    hide StateAfter, NamesNothing, Points, Resolved;
    if m.payload.Some? && IsData(c, m) {
      NothingResolved(AliasesOf(StateAfter(c, history, ReaderOf(m))), m.payload.value.metrics,
                      m.topic.value.node, Filed(m.topic.value));
    }
  }

  /** All points a history brings, in order of arrival. */
  ghost function Arrivals(c: Config, history: seq<Message>): seq<Point> {
    if history == [] then []
    else
      var n := |history| - 1;
      Arrivals(c, history[..n]) + Brings(c, history[..n], history[n])
  }

  lemma ArrivalsMore(c: Config, history: seq<Message>, m: Message)
    ensures Arrivals(c, history + [m]) == Arrivals(c, history) + Brings(c, history, m)
  {
    hide Brings;
    assert (history + [m])[..|history|] == history;
  }

  /** accepted is arrivals with some left out. */
  ghost predicate Subsequence(a: seq<Point>, b: seq<Point>) {
    a == [] || (b != [] && (var a', b' := a[..|a| - 1], b[..|b| - 1];
      Subsequence(a, b') || (a[|a| - 1] == b[|b| - 1] && Subsequence(a', b'))))
  }

  lemma {:induction false} SubsequenceLater(a: seq<Point>, b: seq<Point>, more: seq<Point>)
    requires Subsequence(a, b)
    ensures Subsequence(a, b + more)
    decreases |more|
  {
    if more == [] {
      assert b + more == b;
    } else {
      var n := |more| - 1;
      SubsequenceLater(a, b, more[..n]);
      assert (b + more)[..|b| + n] == b + more[..n];
    }
  }

  lemma SubsequenceExtends(a: seq<Point>, b: seq<Point>, p: Point)
    requires Subsequence(a, b)
    ensures Subsequence(a + [p], b + [p])
  {
    assert (a + [p])[..|a|] == a && (b + [p])[..|b|] == b;
  }

  lemma {:induction false} SubsequenceGrows(a: seq<Point>, b: seq<Point>, more: seq<Point>, k: nat)
    requires Subsequence(a, b) && k <= |more|
    ensures Subsequence(a + more[..k], b + more)
    decreases k
  {
    hide Subsequence;
    if k == 0 {
      assert a + more[..0] == a;
      SubsequenceLater(a, b, more);
    } else {
      var head, p := more[..k - 1], more[k - 1];
      PiecesOf(a, b, more, k);
      SubsequenceGrows(a, b, head, k - 1);
      SubsequenceExtends(a + head, b + head, p);
      SubsequenceLater(a + head + [p], b + head + [p], more[k..]);
    }
  }

  lemma PiecesOf(a: seq<Point>, b: seq<Point>, more: seq<Point>, k: nat)
    requires 1 <= k <= |more|
    ensures a + more[..k - 1] + [more[k - 1]] == a + more[..k]
    ensures b + more[..k - 1] + [more[k - 1]] + more[k..] == b + more
    ensures more[..k - 1][..k - 1] == more[..k - 1]
  {
  }

  // ------------------------------------------------------------------- the scoop

  type Nodes = map<string, OwnerState>

  type Devices = map<string, map<string, OwnerState>>

  function Lookup(nodes: Nodes, devices: Devices, o: Owner): Option<OwnerState> {
    match o
    case Node(n) => if n in nodes then Some(nodes[n]) else None
    case Device(n, d) => if n in devices && d in devices[n] then Some(devices[n][d]) else None
  }

  /** Every owner is in the state the history leaves it in. */
  ghost predicate Agrees(c: Config, history: seq<Message>, nodes: Nodes, devices: Devices) {
    forall o: Owner :: Lookup(nodes, devices, o) == StateAfter(c, history, o)
  }

  lemma AgreesAt(c: Config, history: seq<Message>, nodes: Nodes, devices: Devices, o: Owner)
    requires Agrees(c, history, nodes, devices)
    ensures Lookup(nodes, devices, o) == StateAfter(c, history, o)
  {
  }

  lemma BringsContents(c: Config, history: seq<Message>, m: Message)
    ensures Brings(c, history, m) == Contents(c, m, StateAfter(c, history, ReaderOf(m)))
  {
  }

  /** The maps moved by one message agree with the longer history. */
  ghost predicate MovedBy(c: Config, m: Message, nodes: Nodes, devices: Devices, nodes': Nodes, devices': Devices) {
    forall o: Owner :: Lookup(nodes', devices', o) == Moved(c, Lookup(nodes, devices, o), m, o)
  }

  lemma AgreesAfter(c: Config, history: seq<Message>, m: Message, nodes: Nodes, devices: Devices,
                    nodes': Nodes, devices': Devices)
    requires Agrees(c, history, nodes, devices) && MovedBy(c, m, nodes, devices, nodes', devices')
    ensures Agrees(c, history + [m], nodes', devices')
  {
    hide Lookup, Moved, StateAfter;
    forall o: Owner
      ensures Lookup(nodes', devices', o) == StateAfter(c, history + [m], o)
    {
      OneMoreMessage(c, history, m, o);
    }
  }

  /** The buffer is bounded and holds the accepted points not yet removed. The accepted
      points are arrivals in order, and every point that arrived since the last reset was
      accepted or counted as dropped. */
  ghost predicate Balanced(c: Config, history: seq<Message>, buffer: seq<Point>, accepted: seq<Point>,
                           removed: seq<Point>, dropped: nat, arrivedAtReset: nat, acceptedAtReset: nat) {
    && |buffer| <= c.queueSize
    && removed + buffer == accepted
    && Subsequence(accepted, Arrivals(c, history))
    && |Arrivals(c, history)| - arrivedAtReset == |accepted| - acceptedAtReset + dropped
  }

  lemma BalancedAfter(c: Config, history: seq<Message>, m: Message, buffer: seq<Point>, accepted: seq<Point>,
                      removed: seq<Point>, dropped: nat, arrivedAtReset: nat, acceptedAtReset: nat, k: nat)
    requires Balanced(c, history, buffer, accepted, removed, dropped, arrivedAtReset, acceptedAtReset)
    requires k <= |Brings(c, history, m)| && |buffer| + k <= c.queueSize
    ensures var points := Brings(c, history, m);
      Balanced(c, history + [m], buffer + points[..k], accepted + points[..k], removed,
               dropped + |points| - k, arrivedAtReset, acceptedAtReset)
  {
    hide Brings, Arrivals, Subsequence;
    var points := Brings(c, history, m);
    ArrivalsMore(c, history, m);
    SubsequenceGrows(accepted, Arrivals(c, history), points, k);
    assert removed + (buffer + points[..k]) == (removed + buffer) + points[..k];
  }

  lemma BalancedReset(c: Config, history: seq<Message>, buffer: seq<Point>, accepted: seq<Point>,
                      removed: seq<Point>, dropped: nat, arrivedAtReset: nat, acceptedAtReset: nat)
    requires Balanced(c, history, buffer, accepted, removed, dropped, arrivedAtReset, acceptedAtReset)
    ensures Balanced(c, history, buffer, accepted, removed, 0, |Arrivals(c, history)|, |accepted|)
  {
    hide Arrivals, Subsequence;
  }

  lemma BalancedRemoval(c: Config, history: seq<Message>, buffer: seq<Point>, accepted: seq<Point>,
                        removed: seq<Point>, dropped: nat, arrivedAtReset: nat, acceptedAtReset: nat,
                        batch: seq<Point>, rest: seq<Point>)
    requires Balanced(c, history, buffer, accepted, removed, dropped, arrivedAtReset, acceptedAtReset)
    requires buffer == batch + rest
    ensures Balanced(c, history, rest, accepted, removed + batch, dropped, arrivedAtReset, acceptedAtReset)
  {
    hide Arrivals, Subsequence;
    assert (removed + batch) + rest == removed + (batch + rest);
  }

  // The maps before and after each kind of message.

  lemma NodeBirthMoves(c: Config, m: Message, nodes: Nodes, devices: Devices)
    requires c.processBirths && m.topic.Some? && m.topic.value.messageType == NBIRTH
    ensures MovedBy(c, m, nodes, devices,
      if m.payload.None? then nodes else nodes[m.topic.value.node := Born(m.topic.value.group, m.payload.value)],
      devices)
  {
    hide Born;
  }

  lemma DeviceBirthMoves(c: Config, m: Message, nodes: Nodes, devices: Devices)
    requires c.processBirths && m.topic.Some? && m.topic.value.messageType == DBIRTH
    ensures MovedBy(c, m, nodes, devices, nodes,
      if m.payload.None? then devices
      else WithDevice(devices, m.topic.value.node, m.topic.value.device, Born("", m.payload.value)))
  {
    hide Born;
  }

  lemma NodeDeathMoves(c: Config, m: Message, nodes: Nodes, devices: Devices)
    requires c.processDeaths && m.topic.Some? && m.topic.value.messageType == NDEATH
    ensures var n := m.topic.value.node;
      MovedBy(c, m, nodes, devices,
              if n in nodes then nodes[n := nodes[n].(online := false)] else nodes,
              if n in devices then devices[n := Offline(devices[n])] else devices)
  {
  }

  lemma DeviceDeathMoves(c: Config, m: Message, nodes: Nodes, devices: Devices)
    requires c.processDeaths && m.topic.Some? && m.topic.value.messageType == DDEATH
    ensures var n, d := m.topic.value.node, m.topic.value.device;
      MovedBy(c, m, nodes, devices, nodes,
              if n in devices && d in devices[n]
              then WithDevice(devices, n, d, devices[n][d].(online := false)) else devices)
  {
  }

  lemma OtherwiseStays(c: Config, m: Message, nodes: Nodes, devices: Devices)
    requires !IsBirth(c, m) && !IsDeath(c, m)
    ensures MovedBy(c, m, nodes, devices, nodes, devices)
  {
  }

  /** How many of the coming points find room. */
  function Room(c: Config, buffered: nat, coming: nat): (k: nat)
    requires buffered <= c.queueSize
    ensures k <= coming && buffered + k <= c.queueSize
    ensures k == coming || buffered + k == c.queueSize
  {
    if coming <= c.queueSize - buffered then coming else c.queueSize - buffered
  }

  datatype BufferView = BufferView(buffer: seq<Point>, accepted: seq<Point>, dropped: nat, processed: nat)

  /** The buffer took what it had room for of the points, and the rest was dropped. */
  ghost predicate Took(c: Config, v: BufferView, points: seq<Point>, v': BufferView)
    requires |v.buffer| <= c.queueSize
  {
    var k := Room(c, |v.buffer|, |points|);
    v' == BufferView(v.buffer + points[..k], v.accepted + points[..k], v.dropped + |points| - k,
                     v.processed + if points == [] then 0 else 1)
  }

  lemma TookMeans(c: Config, v: BufferView, points: seq<Point>, v': BufferView)
    requires |v.buffer| <= c.queueSize && Took(c, v, points, v')
    ensures var k := Room(c, |v.buffer|, |points|);
      v' == BufferView(v.buffer + points[..k], v.accepted + points[..k], v.dropped + |points| - k,
                       v.processed + if points == [] then 0 else 1)
  {
  }

  /** What leaves the buffer may or may not reach the callback; the order is kept. */
  lemma DeliveredInOrder(delivered: seq<Point>, removed: seq<Point>, batch: seq<Point>)
    requires Subsequence(delivered, removed)
    ensures Subsequence(delivered, removed + batch) && Subsequence(delivered + batch, removed + batch)
  {
    hide Subsequence;
    SubsequenceLater(delivered, removed, batch);
    SubsequenceGrows(delivered, removed, batch, |batch|);
    assert batch[..|batch|] == batch;
  }

  class Scoop {
    const config: Config
    var nodeStates: Nodes
    var deviceStates: Devices
    var dataBuffer: seq<Point>

    var messagesReceived: nat
    var messagesProcessed: nat
    var messagesDropped: nat
    var birthsReceived: nat
    var deathsReceived: nat
    var dataMessagesReceived: nat
    var decodeErrors: nat

    /** A data callback is subscribed. */
    var hasCallback: bool

    ghost var history: seq<Message>
    /** The points the callback has received. */
    ghost var delivered: seq<Point>
    ghost var accepted: seq<Point>
    ghost var removed: seq<Point>
    ghost var arrivedAtReset: nat
    ghost var acceptedAtReset: nat

    ghost predicate Valid()
      reads this
    {
      && Balanced(config, history, dataBuffer, accepted, removed, messagesDropped, arrivedAtReset, acceptedAtReset)
      && Agrees(config, history, nodeStates, deviceStates)
      && Subsequence(delivered, removed)
    }

    lemma ValidMeans()
      ensures Valid() <==>
        && Balanced(config, history, dataBuffer, accepted, removed, messagesDropped, arrivedAtReset, acceptedAtReset)
        && Agrees(config, history, nodeStates, deviceStates)
        && Subsequence(delivered, removed)
      ensures Valid() ==> |dataBuffer| <= config.queueSize
    {
      hide Agrees, Subsequence, Arrivals;
    }

    constructor (c: Config)
      ensures Valid() && config == c && history == [] && dataBuffer == [] && accepted == [] && !hasCallback
    {
      config := c;
      nodeStates, deviceStates, dataBuffer := map[], map[], [];
      messagesReceived, messagesProcessed, messagesDropped := 0, 0, 0;
      birthsReceived, deathsReceived, dataMessagesReceived, decodeErrors := 0, 0, 0, 0;
      history, accepted, removed, delivered, hasCallback := [], [], [], [], false;
      arrivedAtReset, acceptedAtReset := 0, 0;
    }

    /** The loop of the birth handlers: names and aliases replace the old ones. */
    static method BuildState(group: string, p: Payload) returns (s: OwnerState)
      ensures s == Born(group, p)
    {
      var names: seq<string> := [];
      var aliases: map<nat, string> := map[];
      for i := 0 to |p.metrics|
        invariant names == Names(p.metrics[..i]) && aliases == Table(p.metrics[..i])
      {
        var metric := p.metrics[i];
        assert p.metrics[..i + 1][..i] == p.metrics[..i];
        names := names + [metric.name];
        if metric.alias > 0 {
          aliases := aliases[metric.alias := metric.name];
        }
      }
      assert p.metrics[..|p.metrics|] == p.metrics;
      s := OwnerState(group, true, p.timestamp, names, aliases);
    }

    /** resolve_aliases: a name is looked up only where there is none. */
    method ResolveAliases(n: string, d: string, metrics: seq<Metric>) returns (resolved: seq<Metric>)
      ensures resolved == Resolved(AliasesOf(Lookup(nodeStates, deviceStates, Reader(n, d))), metrics)
    {
      var aliases: map<nat, string> := map[];
      if d == "" {
        if n in nodeStates {
          aliases := nodeStates[n].aliases;
        }
      } else if n in deviceStates && d in deviceStates[n] {
        aliases := deviceStates[n][d].aliases;
      }
      resolved := metrics;
      for i := 0 to |metrics|
        invariant |resolved| == |metrics|
        invariant forall k | 0 <= k < |metrics| ::
                    resolved[k] == if k < i then Named(aliases, metrics[k]) else metrics[k]
      {
        if resolved[i].name == "" && resolved[i].alias > 0 && resolved[i].alias in aliases {
          resolved := resolved[i := resolved[i].(name := aliases[resolved[i].alias])];
        }
      }
    }

    ghost function View(): BufferView
      reads this`dataBuffer, this`accepted, this`messagesDropped, this`messagesProcessed
    {
      BufferView(dataBuffer, accepted, messagesDropped, messagesProcessed)
    }

    lemma ViewMeans()
      ensures View() == BufferView(dataBuffer, accepted, messagesDropped, messagesProcessed)
    {
    }

    /** process_metrics: the named metrics enter the buffer as far as there is room. */
    method ProcessMetrics(metrics: seq<Metric>, n: string, d: string)
      requires |dataBuffer| <= config.queueSize
      modifies this`dataBuffer, this`messagesProcessed, this`messagesDropped, this`accepted
      ensures Took(config, old(View()), Points(metrics, n, d), View())
    {
      var points: seq<Point> := [];
      for i := 0 to |metrics|
        invariant points == Points(metrics[..i], n, d)
      {
        assert metrics[..i + 1][..i] == metrics[..i];
        if metrics[i].name != "" {
          points := points + [Point(Address(n, d, metrics[i].name), metrics[i].reading)];
        }
      }
      assert metrics[..|metrics|] == metrics;
      if points == [] {
        return;
      }
      messagesProcessed := messagesProcessed + 1;
      hide Points, Address;
      for i := 0 to |points|
        invariant var k := Room(config, |old(dataBuffer)|, i);
          && dataBuffer == old(dataBuffer) + points[..k]
          && accepted == old(accepted) + points[..k]
          && messagesDropped == old(messagesDropped) + i - k
        invariant messagesProcessed == old(messagesProcessed) + 1
      {
        if |dataBuffer| < config.queueSize {
          dataBuffer := dataBuffer + [points[i]];
          accepted := accepted + [points[i]];
        } else {
          messagesDropped := messagesDropped + 1;
        }
      }
    }

    method HandleNodeBirth(group: string, n: string, decoded: Option<Payload>)
      requires |dataBuffer| <= config.queueSize
      modifies this`birthsReceived, this`decodeErrors, this`nodeStates
      modifies this`dataBuffer, this`messagesProcessed, this`messagesDropped, this`accepted
      ensures birthsReceived == old(birthsReceived) + 1
      ensures decodeErrors == old(decodeErrors) + if decoded.None? then 1 else 0
      ensures nodeStates == if decoded.None? then old(nodeStates) else old(nodeStates)[n := Born(group, decoded.value)]
      ensures Took(config, old(View()), if decoded.None? then [] else Points(decoded.value.metrics, n, ""), View())
    {
      birthsReceived := birthsReceived + 1;
      if decoded.None? {
        decodeErrors := decodeErrors + 1;
        return;
      }
      var state := BuildState(group, decoded.value);
      nodeStates := nodeStates[n := state];
      ProcessMetrics(decoded.value.metrics, n, "");
    }

    method HandleDeviceBirth(n: string, d: string, decoded: Option<Payload>)
      requires |dataBuffer| <= config.queueSize
      modifies this`birthsReceived, this`decodeErrors, this`deviceStates
      modifies this`dataBuffer, this`messagesProcessed, this`messagesDropped, this`accepted
      ensures birthsReceived == old(birthsReceived) + 1
      ensures decodeErrors == old(decodeErrors) + if decoded.None? then 1 else 0
      ensures deviceStates == if decoded.None? then old(deviceStates)
                              else WithDevice(old(deviceStates), n, d, Born("", decoded.value))
      ensures Took(config, old(View()), if decoded.None? then [] else Points(decoded.value.metrics, n, d), View())
    {
      birthsReceived := birthsReceived + 1;
      if decoded.None? {
        decodeErrors := decodeErrors + 1;
        return;
      }
      var state := BuildState("", decoded.value);
      if n !in deviceStates {
        deviceStates := deviceStates[n := map[]];
      }
      deviceStates := deviceStates[n := deviceStates[n][d := state]];
      assert deviceStates == WithDevice(old(deviceStates), n, d, state);
      ProcessMetrics(decoded.value.metrics, n, d);
    }

    /** handle_ndeath: the node, and all its devices. */
    method HandleNodeDeath(n: string)
      modifies this`nodeStates, this`deviceStates, this`deathsReceived
      ensures deathsReceived == old(deathsReceived) + 1
      ensures nodeStates == if n in old(nodeStates) then old(nodeStates)[n := old(nodeStates)[n].(online := false)]
                            else old(nodeStates)
      ensures deviceStates == if n in old(deviceStates) then old(deviceStates)[n := Offline(old(deviceStates)[n])]
                              else old(deviceStates)
    {
      deathsReceived := deathsReceived + 1;
      if n in nodeStates {
        nodeStates := nodeStates[n := nodeStates[n].(online := false)];
      }
      if n in deviceStates {
        var states := deviceStates[n];
        var todo := states.Keys;
        while todo != {}
          invariant todo <= states.Keys == old(deviceStates)[n].Keys
          invariant forall d | d in states ::
                      states[d] == if d in todo then old(deviceStates)[n][d]
                                   else old(deviceStates)[n][d].(online := false)
        {
          var d :| d in todo;
          states := states[d := states[d].(online := false)];
          todo := todo - {d};
        }
        assert states == Offline(old(deviceStates)[n]);
        deviceStates := deviceStates[n := states];
      }
    }

    method HandleDeviceDeath(n: string, d: string)
      modifies this`deviceStates, this`deathsReceived
      ensures deathsReceived == old(deathsReceived) + 1
      ensures deviceStates == if n in old(deviceStates) && d in old(deviceStates)[n]
                              then WithDevice(old(deviceStates), n, d, old(deviceStates)[n][d].(online := false))
                              else old(deviceStates)
    {
      deathsReceived := deathsReceived + 1;
      if n in deviceStates {
        if d in deviceStates[n] {
          deviceStates := deviceStates[n := deviceStates[n][d := deviceStates[n][d].(online := false)]];
        }
      }
    }

    /** handle_ndata, where d is empty, and handle_ddata. */
    method HandleData(n: string, d: string, decoded: Option<Payload>)
      requires |dataBuffer| <= config.queueSize
      modifies this`dataMessagesReceived, this`decodeErrors
      modifies this`dataBuffer, this`messagesProcessed, this`messagesDropped, this`accepted
      ensures dataMessagesReceived == old(dataMessagesReceived) + 1
      ensures decodeErrors == old(decodeErrors) + if decoded.None? then 1 else 0
      ensures Took(config, old(View()), if decoded.None? then []
                    else Points(Resolved(AliasesOf(Lookup(nodeStates, deviceStates, Reader(n, d))),
                                         decoded.value.metrics), n, d), View())
    {
      dataMessagesReceived := dataMessagesReceived + 1;
      if decoded.None? {
        decodeErrors := decodeErrors + 1;
        return;
      }
      var metrics := ResolveAliases(n, d, decoded.value.metrics);
      ProcessMetrics(metrics, n, d);
    }

    /** The part of handle_message that follows parsing: at most one handler runs. */
    method Dispatch(topic: Option<Topic>, decoded: Option<Payload>)
      requires |dataBuffer| <= config.queueSize
      modifies this`birthsReceived, this`deathsReceived, this`dataMessagesReceived, this`decodeErrors
      modifies this`nodeStates, this`deviceStates
      modifies this`dataBuffer, this`messagesProcessed, this`messagesDropped, this`accepted
      ensures var m := Message(topic, decoded);
        && birthsReceived == old(birthsReceived) + (if IsBirth(config, m) then 1 else 0)
        && deathsReceived == old(deathsReceived) + (if IsDeath(config, m) then 1 else 0)
        && dataMessagesReceived == old(dataMessagesReceived) + (if IsData(config, m) then 1 else 0)
        && decodeErrors == old(decodeErrors)
                           + (if (IsBirth(config, m) || IsData(config, m)) && decoded.None? then 1 else 0)
      ensures MovedBy(config, Message(topic, decoded), old(nodeStates), old(deviceStates), nodeStates, deviceStates)
      ensures var m := Message(topic, decoded);
        var reader := Lookup(old(nodeStates), old(deviceStates), ReaderOf(m));
        Took(config, old(View()), Contents(config, m, reader), View())
    {
      ghost var m := Message(topic, decoded);
      ghost var nodes, devices := nodeStates, deviceStates;
      hide MovedBy, Born, Points, Resolved, Lookup, WithDevice, Offline;
      if !IsBirth(config, m) && !IsDeath(config, m) {
        OtherwiseStays(config, m, nodes, devices);
      }
      if topic.None? {
        return;
      }
      var t := topic.value;
      match t.messageType
      case NBIRTH =>
        if config.processBirths {
          NodeBirthMoves(config, m, nodes, devices);
          HandleNodeBirth(t.group, t.node, decoded);
        }
      case NDEATH =>
        if config.processDeaths {
          NodeDeathMoves(config, m, nodes, devices);
          HandleNodeDeath(t.node);
        }
      case NDATA =>
        if config.processData {
          HandleData(t.node, "", decoded);
        }
      case DBIRTH =>
        if config.processBirths {
          DeviceBirthMoves(config, m, nodes, devices);
          HandleDeviceBirth(t.node, t.device, decoded);
        }
      case DDEATH =>
        if config.processDeaths {
          DeviceDeathMoves(config, m, nodes, devices);
          HandleDeviceDeath(t.node, t.device);
        }
      case DDATA =>
        if config.processData {
          HandleData(t.node, t.device, decoded);
        }
      case _ =>
    }

    /** handle_message. decoded is what decoding the payload yields. */
    method HandleMessage(text: string, decoded: Option<Payload>)
      requires Valid()
      modifies this`messagesReceived, this`birthsReceived, this`deathsReceived, this`dataMessagesReceived
      modifies this`decodeErrors, this`nodeStates, this`deviceStates, this`history
      modifies this`dataBuffer, this`messagesProcessed, this`messagesDropped, this`accepted
      ensures Valid()
      ensures history == old(history) + [Message(Parsed(text), decoded)]
      ensures |old(dataBuffer)| <= config.queueSize
      ensures Took(config, old(View()), Brings(config, old(history), Message(Parsed(text), decoded)), View())
      ensures exists added :: accepted == old(accepted) + added && forall p | p in added :: IsFiled(p, text, decoded)
      ensures messagesReceived == old(messagesReceived) + 1
      ensures var m := Message(Parsed(text), decoded);
        && birthsReceived == old(birthsReceived) + (if IsBirth(config, m) then 1 else 0)
        && deathsReceived == old(deathsReceived) + (if IsDeath(config, m) then 1 else 0)
        && dataMessagesReceived == old(dataMessagesReceived) + (if IsData(config, m) then 1 else 0)
        && decodeErrors == old(decodeErrors)
                           + (if (IsBirth(config, m) || IsData(config, m)) && decoded.None? then 1 else 0)
    {
      ValidMeans();
      hide *;
      messagesReceived := messagesReceived + 1;
      ghost var coming := |Brings(config, history, Message(Parsed(text), decoded))|;
      BringsFiled(config, history, text, decoded, Room(config, |dataBuffer|, coming));
      var topic := Parse(text);
      ghost var m := Message(topic, decoded);
      ghost var before := View();
      ViewMeans();
      AgreesAt(config, history, nodeStates, deviceStates, ReaderOf(m));
      Dispatch(topic, decoded);
      ViewMeans();
      BringsContents(config, history, m);
      TookMeans(config, before, Brings(config, history, m), View());
      BalancedAfter(config, history, m, old(dataBuffer), old(accepted), removed, old(messagesDropped),
                    arrivedAtReset, acceptedAtReset, Room(config, |old(dataBuffer)|, |Brings(config, history, m)|));
      AgreesAfter(config, history, m, old(nodeStates), old(deviceStates), nodeStates, deviceStates);
      history := history + [m];
      ValidMeans();
    }

    /** read: everything there is. */
    method Read() returns (points: seq<Point>)
      requires Valid()
      modifies this`dataBuffer, this`removed
      ensures Valid()
      ensures points == old(dataBuffer) && dataBuffer == [] && removed == old(removed) + points
    {
      hide *;
      ValidMeans();
      points := [];
      while dataBuffer != []
        invariant points + dataBuffer == old(dataBuffer) && removed == old(removed)
        decreases |dataBuffer|
      {
        points := points + [dataBuffer[0]];
        dataBuffer := dataBuffer[1..];
      }
      BalancedRemoval(config, history, old(dataBuffer), accepted, removed, messagesDropped,
                      arrivedAtReset, acceptedAtReset, points, dataBuffer);
      DeliveredInOrder(delivered, removed, points);
      removed := removed + points;
      ValidMeans();
    }

    method Subscribe()
      requires Valid()
      modifies this`hasCallback
      ensures Valid() && hasCallback
    {
      ValidMeans();
      hide *;
      hasCallback := true;
      ValidMeans();
    }

    method Unsubscribe()
      requires Valid()
      modifies this`hasCallback
      ensures Valid() && !hasCallback
    {
      ValidMeans();
      hide *;
      hasCallback := false;
      ValidMeans();
    }

    /** One turn of processing_loop: at most a hundred points leave the buffer, for the
        callback if there is one and for nobody otherwise. */
    method Deliver() returns (batch: seq<Point>)
      requires Valid()
      modifies this`dataBuffer, this`removed, this`delivered
      ensures Valid()
      ensures delivered == if hasCallback then old(delivered) + batch else old(delivered)
      ensures old(dataBuffer) == batch + dataBuffer && removed == old(removed) + batch
      ensures |batch| == if |old(dataBuffer)| < 100 then |old(dataBuffer)| else 100
    {
      hide *;
      ValidMeans();
      batch := [];
      while dataBuffer != [] && |batch| < 100
        invariant batch + dataBuffer == old(dataBuffer) && |batch| <= 100
        invariant removed == old(removed) && delivered == old(delivered)
        decreases |dataBuffer|
      {
        batch := batch + [dataBuffer[0]];
        dataBuffer := dataBuffer[1..];
      }
      BalancedRemoval(config, history, old(dataBuffer), accepted, removed, messagesDropped,
                      arrivedAtReset, acceptedAtReset, batch, dataBuffer);
      DeliveredInOrder(delivered, removed, batch);
      removed := removed + batch;
      if hasCallback {
        delivered := delivered + batch;
      }
      ValidMeans();
    }

    /** reset_statistics: counting begins anew, and nothing else changes. */
    method ResetStatistics()
      requires Valid()
      modifies this`messagesReceived, this`messagesProcessed, this`messagesDropped, this`birthsReceived
      modifies this`deathsReceived, this`dataMessagesReceived, this`decodeErrors
      modifies this`arrivedAtReset, this`acceptedAtReset
      ensures Valid()
      ensures messagesReceived == messagesProcessed == messagesDropped == birthsReceived == deathsReceived == 0
      ensures dataMessagesReceived == decodeErrors == 0
      ensures arrivedAtReset == |Arrivals(config, history)| && acceptedAtReset == |accepted|
    {
      ValidMeans();
      hide *;
      BalancedReset(config, history, dataBuffer, accepted, removed, messagesDropped, arrivedAtReset, acceptedAtReset);
      messagesReceived, messagesProcessed, messagesDropped := 0, 0, 0;
      birthsReceived, deathsReceived, dataMessagesReceived, decodeErrors := 0, 0, 0, 0;
      arrivedAtReset, acceptedAtReset := |Arrivals(config, history)|, |accepted|;
      ValidMeans();
    }
  }

  function Offline(states: map<string, OwnerState>): map<string, OwnerState> {
    map d | d in states :: states[d].(online := false)
  }

  function WithDevice(devices: Devices, n: string, d: string, s: OwnerState): Devices {
    devices[n := (if n in devices then devices[n] else map[])[d := s]]
  }
}
