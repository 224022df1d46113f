/** Sparkplug topic names: the reader splits the text as std::getline does, the writer
    joins the fields. Which topics, and which texts, survive the two is stated exactly. */
module SparkplugTopic {
  import opened GetLine
  import opened Wrappers

  datatype MessageType =
    NBIRTH | NDEATH | NDATA | NCMD | DBIRTH | DDEATH | DDATA | DCMD | STATE | UNKNOWN

  /** For STATE messages node is the host. */
  datatype Topic = Topic(group: string, messageType: MessageType, node: string, device: string)

  function TypeName(t: MessageType): string {
    match t
    case NBIRTH => "NBIRTH"
    case NDEATH => "NDEATH"
    case NDATA => "NDATA"
    case NCMD => "NCMD"
    case DBIRTH => "DBIRTH"
    case DDEATH => "DDEATH"
    case DDATA => "DDATA"
    case DCMD => "DCMD"
    case STATE => "STATE"
    case UNKNOWN => "UNKNOWN"
  }

  function TypeOf(s: string): MessageType {
    if s == "NBIRTH" then NBIRTH
    else if s == "NDEATH" then NDEATH
    else if s == "NDATA" then NDATA
    else if s == "NCMD" then NCMD
    else if s == "DBIRTH" then DBIRTH
    else if s == "DDEATH" then DDEATH
    else if s == "DDATA" then DDATA
    else if s == "DCMD" then DCMD
    else if s == "STATE" then STATE
    else UNKNOWN
  }

  /** Every type is read back from its name, and no name has a slash in it. */
  lemma TypesReadBack(t: MessageType)
    ensures TypeOf(TypeName(t)) == t && NoSlash(TypeName(t)) && TypeName(t) != ""
  {
    assert |"NBIRTH"| == |"NDEATH"| == |"DBIRTH"| == |"DDEATH"| == 6 && |"UNKNOWN"| == 7;
    assert |"NDATA"| == |"DDATA"| == |"STATE"| == 5 && |"NCMD"| == |"DCMD"| == 4;
    assert "NBIRTH"[1] != "NDEATH"[1] && "DBIRTH"[1] != "DDEATH"[1] && "NDATA"[0] != "DDATA"[0];
    assert "NDATA"[0] != "STATE"[0] && "DDATA"[0] != "STATE"[0];
    assert "NBIRTH"[0] != "DBIRTH"[0] && "NBIRTH"[0] != "DDEATH"[0] && "NDEATH"[0] != "DBIRTH"[0];
    assert "NDEATH"[0] != "DDEATH"[0] && "NCMD"[0] != "DCMD"[0];
  }

  // ------------------------------------------------------------ parse, to_string

  function Read(parts: seq<string>): Option<Topic> {
    if |parts| >= 2 && parts[0] == "STATE" then Some(Topic("", STATE, parts[1], ""))
    else if |parts| < 4 || parts[0] != "spBv1.0" then None
    else Some(Topic(parts[1], TypeOf(parts[2]), parts[3], if |parts| >= 5 then parts[4] else ""))
  }

  function Parsed(topic: string): Option<Topic> {
    Read(Lines(topic))
  }

  method Parse(topic: string) returns (t: Option<Topic>)
    ensures t == Parsed(topic)
  {
    var parts := Split(topic);
    if |parts| >= 2 && parts[0] == "STATE" {
      return Some(Topic("", STATE, parts[1], ""));
    }
    if |parts| < 4 {
      return None;
    }
    if parts[0] != "spBv1.0" {
      return None;
    }
    var result := Topic(parts[1], TypeOf(parts[2]), parts[3], "");
    if |parts| >= 5 {
      result := result.(device := parts[4]);
    }
    return Some(result);
  }

  function ToString(t: Topic): string {
    if t.messageType == STATE then "STATE/" + t.node
    else
      var topic := "spBv1.0/" + t.group + "/" + TypeName(t.messageType) + "/" + t.node;
      if t.device != "" then topic + "/" + t.device else topic
  }

  /** The fields as parts. */
  ghost function Parts(t: Topic): (parts: seq<string>)
    ensures |parts| >= 2
  {
    if t.messageType == STATE then ["STATE", t.node]
    else ["spBv1.0", t.group, TypeName(t.messageType), t.node] + (if t.device == "" then [] else [t.device])
  }

  lemma JoinParts(t: Topic)
    ensures ToString(t) == Join(Parts(t))
  {
    if t.messageType == STATE {
      JoinTwo("STATE", t.node);
      assert "STATE" + "/" + t.node == "STATE/" + t.node;
    } else {
      var tail := if t.device == "" then [t.node] else [t.node, t.device];
      JoinTail(t);
      JoinThree("spBv1.0", t.group, TypeName(t.messageType), tail);
      ToStringForm(t);
      hide TypeName, Join, ToString;
      assert Parts(t) == ["spBv1.0", t.group, TypeName(t.messageType)] + tail;
    }
  }

  lemma JoinThree(a: string, b: string, c: string, tail: seq<string>)
    requires tail != []
    ensures Join([a, b, c] + tail) == a + "/" + (b + "/" + (c + "/" + Join(tail)))
  {
    hide Join;
    JoinMore(c, tail);
    JoinMore(b, [c] + tail);
    JoinMore(a, [b] + ([c] + tail));
    assert [a, b, c] + tail == [a] + ([b] + ([c] + tail));
  }

  lemma ToStringForm(t: Topic)
    requires t.messageType != STATE
    ensures ToString(t) == "spBv1.0" + "/" + (t.group + "/" + (TypeName(t.messageType) + "/"
                           + if t.device == "" then t.node else t.node + "/" + t.device))
  {
    hide TypeName;
    assert "spBv1.0" + "/" == "spBv1.0/";
    RegroupFields("spBv1.0", t.group, TypeName(t.messageType), t.node, t.device);
  }

  lemma JoinTail(t: Topic)
    ensures Join([t.node]) == t.node && Join([t.node, t.device]) == t.node + "/" + t.device
  {
    JoinTwo(t.node, t.device);
  }

  lemma RegroupFields(a: string, b: string, c: string, d: string, e: string)
    ensures a + "/" + b + "/" + c + "/" + d == a + "/" + (b + "/" + (c + "/" + d))
    ensures a + "/" + b + "/" + c + "/" + d + "/" + e == a + "/" + (b + "/" + (c + "/" + (d + "/" + e)))
  {
  }

  lemma JoinTwo(a: string, b: string)
    ensures Join([a, b]) == a + "/" + b
  {
    assert [a, b][1..] == [b];
  }

  /** The texts of the topics of a node, of a device and of a host, spelled out. */
  lemma SpelledTopics(g: string, n: string, d: string)
    requires d != ""
    ensures ToString(Topic(g, NBIRTH, n, "")) == Join(["spBv1.0", g, "NBIRTH", n])
    ensures ToString(Topic(g, NDEATH, n, "")) == Join(["spBv1.0", g, "NDEATH", n])
    ensures ToString(Topic(g, NDATA, n, "")) == Join(["spBv1.0", g, "NDATA", n])
    ensures ToString(Topic(g, NCMD, n, "")) == Join(["spBv1.0", g, "NCMD", n])
    ensures ToString(Topic(g, DBIRTH, n, d)) == Join(["spBv1.0", g, "DBIRTH", n, d])
    ensures ToString(Topic(g, DDEATH, n, d)) == Join(["spBv1.0", g, "DDEATH", n, d])
    ensures ToString(Topic(g, DDATA, n, d)) == Join(["spBv1.0", g, "DDATA", n, d])
    ensures ToString(Topic(g, DCMD, n, d)) == Join(["spBv1.0", g, "DCMD", n, d])
    ensures ToString(Topic("", STATE, n, "")) == Join(["STATE", n])
  {
    hide Join, ToString;
    NodeText(g, NBIRTH, n);
    NodeText(g, NDEATH, n);
    NodeText(g, NDATA, n);
    NodeText(g, NCMD, n);
    DeviceText(g, DBIRTH, n, d);
    DeviceText(g, DDEATH, n, d);
    DeviceText(g, DDATA, n, d);
    DeviceText(g, DCMD, n, d);
    JoinParts(Topic("", STATE, n, ""));
  }

  lemma NodeText(g: string, t: MessageType, n: string)
    requires t != STATE
    ensures ToString(Topic(g, t, n, "")) == Join(["spBv1.0", g, TypeName(t), n])
  {
    JoinParts(Topic(g, t, n, ""));
    hide Join, ToString, TypeName;
    assert Parts(Topic(g, t, n, "")) == ["spBv1.0", g, TypeName(t), n];
  }

  lemma DeviceText(g: string, t: MessageType, n: string, d: string)
    requires t != STATE && d != ""
    ensures ToString(Topic(g, t, n, d)) == Join(["spBv1.0", g, TypeName(t), n, d])
  {
    JoinParts(Topic(g, t, n, d));
    hide Join, ToString, TypeName;
    assert Parts(Topic(g, t, n, d)) == ["spBv1.0", g, TypeName(t), n, d];
  }

  /** What a topic must be like for its text to carry it. */
  predicate Readable(t: Topic) {
    && NoSlash(t.group) && NoSlash(t.node) && NoSlash(t.device)
    && if t.messageType == STATE then t.group == "" && t.device == "" && t.node != ""
       else t.node != "" || t.device != ""
  }

  predicate FieldsNoSlash(t: Topic) {
    NoSlash(t.group) && NoSlash(t.node) && NoSlash(t.device)
  }

  lemma ReadsSlashFree(parts: seq<string>)
    requires SlashFree(parts)
    ensures Read(parts).Some? ==> FieldsNoSlash(Read(parts).value)
  {
    hide TypeOf, NoSlash;
    assert NoSlash("") by {
      EmptyHasNoSlash();
    }
  }

  lemma EmptyHasNoSlash()
    ensures NoSlash("")
  {
  }

  lemma PartsSlashFree(t: Topic)
    requires FieldsNoSlash(t)
    ensures SlashFree(Parts(t))
  {
    TypesReadBack(t.messageType);
    hide TypeName;
    assert NoSlash("STATE") && NoSlash("spBv1.0");
  }

  lemma ReadParts(t: Topic)
    ensures Read(Parts(t)) == Some(if t.messageType == STATE then t.(group := "", device := "") else t)
  {
    TypesReadBack(t.messageType);
    hide TypeName, TypeOf;
    assert |"STATE"| != |"spBv1.0"|;
  }

  lemma ReadableReads(t: Topic)
    requires Readable(t)
    ensures Parsed(ToString(t)) == Some(t)
  {
    PartsSlashFree(t);
    JoinParts(t);
    ReadParts(t);
    assert Parts(t)[|Parts(t)| - 1] != "";
    hide ToString, Parts, Join, TypeOf, Lines;
    LinesOfJoin(Parts(t));
  }

  /** A slash-free topic without a last field loses it, and with it is refused. */
  lemma MissingLastField(t: Topic)
    requires FieldsNoSlash(t) && t.node == "" && (t.messageType == STATE || t.device == "")
    ensures Parsed(ToString(t)) == None
  {
    PartsSlashFree(t);
    JoinParts(t);
    var parts := Parts(t);
    var kept := parts[..|parts| - 1];
    assert parts == kept + [""] && SlashFree(kept);
    JoinLast(kept, "");
    LinesOfTerminated(kept);
    assert Join(parts) == Join(kept) + "/" + "" == Join(kept) + "/";
    assert |"STATE"| != |"spBv1.0"|;
    hide ToString, Join, TypeName, TypeOf, Lines;
    assert Lines(ToString(t)) == kept;
  }

  lemma {:induction false} JoinLast(parts: seq<string>, last: string)
    requires parts != []
    ensures Join(parts + [last]) == Join(parts) + "/" + last
    decreases |parts|
  {
    var all := parts + [last];
    if |parts| == 1 {
      JoinTwo(parts[0], last);
      assert all == [parts[0], last];
    } else {
      JoinLast(parts[1..], last);
      assert all[1..] == parts[1..] + [last];
      assert parts[0] + "/" + (Join(parts[1..]) + "/" + last) == Join(parts) + "/" + last;
    }
  }

  /** Main result: a topic is read back from its text exactly when no field has a slash,
      a STATE topic has a host and nothing else, and another has a node or a device. */
  lemma ParseToString(t: Topic)
    ensures Parsed(ToString(t)) == Some(t) <==> Readable(t)
  {
    if Readable(t) {
      ReadableReads(t);
    } else if Parsed(ToString(t)) == Some(t) {
      LinesSlashFree(ToString(t));
      ReadsSlashFree(Lines(ToString(t)));
      if t.node == "" && (t.messageType == STATE || t.device == "") {
        MissingLastField(t);
      }
      StateReads(t);
      assert false;
    }
  }

  lemma StateReads(t: Topic)
    ensures t.messageType == STATE && Parsed(ToString(t)).Some?
            ==> Parsed(ToString(t)).value.group == "" && Parsed(ToString(t)).value.device == ""
  {
    if t.messageType == STATE {
      var text := "STATE" + "/" + t.node;
      FirstPart("STATE", t.node);
      assert ToString(t) == text;
    }
  }

  predicate CanonicalLines(parts: seq<string>) {
    if |parts| >= 2 && parts[0] == "STATE" then |parts| == 2
    else 4 <= |parts| <= 5 && TypeOf(parts[2]) != STATE && TypeName(TypeOf(parts[2])) == parts[2]
  }

  /** Texts that are written as they were read: no final slash, no further parts, and a
      message type that has a name in a topic. */
  predicate Canonical(text: string) {
    !EndsWithSlash(text) && CanonicalLines(Lines(text))
  }

  /** The other way round: an accepted text is written back unchanged exactly when it is
      canonical. */
  lemma ToStringParse(text: string)
    requires Parsed(text).Some?
    ensures ToString(Parsed(text).value) == text <==> Canonical(text)
  {
    var t := Parsed(text).value;
    if Canonical(text) {
      CanonicalParts(text);
      JoinOfLines(text);
      JoinParts(t);
    } else if ToString(t) == text {
      ParseToString(t);
      PartsSlashFree(t);
      JoinParts(t);
      LinesOfJoin(Parts(t));
      LastCharacter(Parts(t));
      TypesReadBack(t.messageType);
      CanonicalIfParts(text, t);
      assert false;
    }
  }

  lemma CanonicalParts(text: string)
    requires Parsed(text).Some? && Canonical(text)
    ensures text != "" && !EndsWithSlash(text) && Parts(Parsed(text).value) == Lines(text)
  {
    NoLines();
    JoinOfLines(text);
    hide TypeOf, TypeName, Lines, Join, EndsWithSlash, CanonicalLines;
    PartsOfRead(Lines(text));
  }

  lemma PartsOfRead(parts: seq<string>)
    requires Read(parts).Some? && CanonicalLines(parts) && parts[|parts| - 1] != ""
    ensures Parts(Read(parts).value) == parts
  {
    hide TypeOf, TypeName;
    var t := Read(parts).value;
    if |parts| == 2 {
      assert Parts(t) == [parts[0], parts[1]];
    } else if |parts| == 4 {
      assert Parts(t) == [parts[0], parts[1], parts[2], parts[3]];
    } else {
      assert Parts(t) == [parts[0], parts[1], parts[2], parts[3]] + [parts[4]];
    }
  }

  lemma CanonicalIfParts(text: string, t: Topic)
    requires Lines(text) == Parts(t) && !EndsWithSlash(text)
    requires TypeOf(TypeName(t.messageType)) == t.messageType
    ensures Canonical(text)
  {
    hide TypeOf, TypeName, Lines;
    assert |"STATE"| != |"spBv1.0"|;
  }
}
